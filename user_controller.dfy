/** The read-through / write-invalidate user cache of the user controller:
    the persistent store (users and blogs) and the process-wide cache are
    the fields of one object, and each handler is a method that changes
    them step by step as the handler does. Replies are values of
    `Response`; the request and response objects, status codes, password
    hashing and image transcoding are outside the model. */
module UserController {
  import opened Records
  import opened Ordering
  import opened Pagination

  /** The distinct replies of the handlers. */
  datatype Response =
    | PleaseInputPage        // listing without page or page size
    | PageOutOfRange         // "Page cannot be greater than total page"
    | UserPage(users: seq<User>)
    | PleaseFillUserId
    | UserFound(user: User)
    | UserNotFound
    | InvalidBirthDate
    | InvalidEmail
    | InvalidFile            // create without an uploaded file
    | InvalidImageFormat     // only jpg, jpeg and png are allowed
    | MissingFields
    | UsernameExists
    | UserCreated
    | CacheRefreshed
    | UserUpdated
    | EditForbidden
    | UserDeleted
    | DeleteForbidden

  /** An uploaded file, reduced to the extension its MIME type maps to
      (None when the type is unknown). */
  datatype Upload = Upload(extension: Option<string>)

  const ALLOWED_EXTENSIONS: set<string> := {"jpg", "jpeg", "png"}

  predicate AcceptedImage(file: Upload) {
    file.extension.Some? && file.extension.value in ALLOWED_EXTENSIONS
  }

  /** The body of an admin's create request; an absent field is "". */
  datatype NewUserForm = NewUserForm(
    username: string,
    password: string,
    firstName: string,
    lastName: string,
    email: string,
    birthDate: string,
    address: string,
    role: string)

  /** Every field but the address must be present. */
  predicate RequiredPresent(form: NewUserForm) {
    && form.username != "" && form.password != "" && form.firstName != ""
    && form.lastName != "" && form.email != "" && form.birthDate != ""
    && form.role != ""
  }

  /** The record a successful create saves: a fresh identifier, the hashed
      password and the submitted fields. */
  function CreatedUser(users: seq<User>, form: NewUserForm, hash: string -> string): User {
    User(FreshId(users), form.username, hash(form.password), form.role,
         Profile(form.firstName, form.lastName, form.email, form.birthDate, form.address))
  }

  /** The body of an update request; an absent field is "". */
  datatype UpdateForm = UpdateForm(
    username: string,
    password: string,
    firstName: string,
    lastName: string,
    email: string,
    birthDate: string,
    address: string)

  /** The stored user with the submitted fields assigned over its own; the
      password is replaced only when one is submitted, the role never. */
  function EditedUser(u: User, form: UpdateForm, hash: string -> string): User {
    u.(username := form.username,
       password := if form.password != "" then hash(form.password) else u.password,
       profile := Profile(form.firstName, form.lastName, form.email, form.birthDate, form.address))
  }

  /** Update and delete are allowed to an admin and to the user themself. */
  predicate MayEdit(callerId: int, callerRole: string, targetId: int) {
    callerRole == "admin" || callerId == targetId
  }

  /** A page of users with unique identifiers has unique identifiers, so
      the page a listing republishes as the snapshot keeps them unique. */
  lemma SortedWindowUnique(s: seq<User>, start: nat, size: nat)
    requires UniqueIds(s)
    ensures UniqueIds(Window(SortById(s), start, size))
  {
    var sorted := SortById(s);
    UniqueUnderPermutation(s, sorted);
    UniqueSlice(sorted, Min(start, |sorted|), Min(start + size, |sorted|));
  }

  class Controller {
    /** The persistent store. */
    var users: seq<User>
    var blogs: seq<Blog>
    /** The process-wide cache. */
    var cache: map<string, CacheValue>

    /** Identifiers are unique in the store and in the cached snapshot,
        which only ever holds store users or a page of them. */
    ghost predicate Valid()
      reads this
    {
      && UniqueIds(users) && WellTyped(cache)
      && (USERS_KEY in cache ==> UniqueIds(cache[USERS_KEY].users))
    }

    /** The user snapshot and the count are those of the current store. */
    ghost predicate Consistent()
      reads this
    {
      && USERS_KEY in cache && cache[USERS_KEY] == UserList(users)
      && TOTAL_USERS_KEY in cache && cache[TOTAL_USERS_KEY] == Count(|users|)
    }

    /** A process starting over an existing store, with an empty cache. */
    constructor (storedUsers: seq<User>, storedBlogs: seq<Blog>)
      requires UniqueIds(storedUsers)
      ensures Valid()
      ensures users == storedUsers && blogs == storedBlogs && cache == map[]
    {
      users := storedUsers;
      blogs := storedBlogs;
      cache := map[];
    }

    /** Rebuild of the user snapshot and count from the store. */
    method UpdateAllUsersCache()
      requires Valid()
      modifies this`cache
      ensures Valid() && Consistent()
      ensures cache == old(cache)[USERS_KEY := UserList(users)][TOTAL_USERS_KEY := Count(|users|)]
    {
      var allUsers := users;
      cache := cache[USERS_KEY := UserList(allUsers)];
      var totalUsers := |users|;
      cache := cache[TOTAL_USERS_KEY := Count(totalUsers)];
    }

    /** Rebuild of the user snapshot alone; the count is left as it was. */
    method CacheUsers() returns (r: Response)
      requires Valid()
      modifies this`cache
      ensures Valid() && r == CacheRefreshed
      ensures cache == old(cache)[USERS_KEY := UserList(users)]
    {
      var allUsers := users;
      cache := cache[USERS_KEY := UserList(allUsers)];
      r := CacheRefreshed;
    }

    /** The paginated listing. The count always comes fresh from the store
        (a cached count is read and then discarded). The page is cut from
        the sorted cached snapshot when there is one, else from the sorted
        store; either way the page itself is then published as the "users"
        snapshot, so a later listing or lookup sees only that page. */
    method GetAllUsers(page: Option<int>, pageSize: Option<int>) returns (r: Response)
      requires Valid()
      requires pageSize.Some? ==> pageSize.value >= 1
      modifies this`cache
      ensures Valid()
      ensures page.None? || pageSize.None? ==> r == PleaseInputPage && cache == old(cache)
      ensures page.Some? && pageSize.Some? && page.value > TotalPages(|users|, pageSize.value) ==>
        r == PageOutOfRange && cache == old(cache)[TOTAL_USERS_KEY := Count(|users|)]
      ensures page.Some? && pageSize.Some? && page.value <= TotalPages(|users|, pageSize.value) ==>
        && r.UserPage?
        && (USERS_KEY in old(cache) ==>
              r.users == Page(SortById(old(cache)[USERS_KEY].users), page.value, pageSize.value))
        && (USERS_KEY !in old(cache) ==>
              r.users == Page(SortById(users), page.value, pageSize.value))
        && cache == old(cache)[TOTAL_USERS_KEY := Count(|users|)][USERS_KEY := UserList(r.users)]
      ensures page.Some? && pageSize.Some? ==>
        TOTAL_USERS_KEY in cache && cache[TOTAL_USERS_KEY] == Count(|users|)
      ensures r.UserPage? ==>
        |r.users| <= pageSize.value && USERS_KEY in cache && cache[USERS_KEY] == UserList(r.users)
    {
      if page.None? || pageSize.None? {
        return PleaseInputPage;
      }
      var p, size := page.value, pageSize.value;
      var cachedTotal := if TOTAL_USERS_KEY in cache then Some(cache[TOTAL_USERS_KEY]) else None;
      var totalUsers := |users|;
      cache := cache[TOTAL_USERS_KEY := Count(totalUsers)];
      var totalPages := TotalPages(totalUsers, size);
      if p > totalPages {
        return PageOutOfRange;
      }
      var skip := Offset(p, size);
      var listing: seq<User>;
      if USERS_KEY !in cache {
        SortedWindowUnique(users, skip, size);
        listing := Window(SortById(users), skip, size);
      } else {
        SortedWindowUnique(cache[USERS_KEY].users, skip, size);
        listing := Window(SortById(cache[USERS_KEY].users), skip, size);
      }
      cache := cache[USERS_KEY := UserList(listing)];
      r := UserPage(listing);
    }

    /** The point lookup: from the cached snapshot when there is one (even
        an empty or partial one, so a stored user missing from it is not
        found), else from the store with the password left out. */
    method GetUserById(userId: Option<int>) returns (r: Response)
      requires Valid()
      ensures userId.None? ==> r == PleaseFillUserId
      ensures userId.Some? && USERS_KEY in cache ==>
        var snapshot := cache[USERS_KEY].users;
        && (userId.value in Ids(snapshot) ==>
              r.UserFound? && r.user in snapshot && r.user.id == userId.value)
        && (forall u :: u in snapshot && u.id == userId.value ==> r == UserFound(u))
        && (userId.value !in Ids(snapshot) ==> r == UserNotFound)
      ensures userId.Some? && USERS_KEY !in cache ==>
        && (userId.value in Ids(users) ==>
              && r.UserFound? && r.user.id == userId.value && r.user.password == ""
              && exists u :: u in users && r.user == WithoutPassword(u))
        && (forall u :: u in users && u.id == userId.value ==> r == UserFound(WithoutPassword(u)))
        && (userId.value !in Ids(users) ==> r == UserNotFound)
    {
      if userId.None? {
        return PleaseFillUserId;
      }
      var id := userId.value;
      if USERS_KEY in cache {
        forall u | u in cache[USERS_KEY].users && u.id == id {
          FindByIdUnique(cache[USERS_KEY].users, u);
        }
        var cached := FindById(cache[USERS_KEY].users, id);
        if cached.None? {
          return UserNotFound;
        }
        r := UserFound(cached.value);
        // No return follows the reply from the snapshot, so the store is
        // queried as well; any second reply comes too late to replace it.
        var queried := FindById(users, id);
        return;
      }
      forall u | u in users && u.id == id {
        FindByIdUnique(users, u);
      }
      var stored := FindById(users, id);
      if stored.None? {
        return UserNotFound;
      }
      r := UserFound(WithoutPassword(stored.value));
    }

    /** An admin's create: the validations in the handler's order, then the
        save and a rebuild of the "users" snapshot (the count is not
        rebuilt). `birthDateRejected` and `emailValid` stand for the
        handler's birth-date and e-mail format checks, `hash` for password
        hashing. */
    method AdminCreateUser(form: NewUserForm, birthDateRejected: bool, emailValid: bool,
                           file: Option<Upload>, hash: string -> string) returns (r: Response)
      requires Valid()
      modifies this`users, this`cache
      ensures Valid()
      ensures birthDateRejected ==> r == InvalidBirthDate
      ensures !birthDateRejected && !emailValid ==> r == InvalidEmail
      ensures !birthDateRejected && emailValid && file.None? ==> r == InvalidFile
      ensures !birthDateRejected && emailValid && file.Some? && !AcceptedImage(file.value) ==>
        r == InvalidImageFormat
      ensures !birthDateRejected && emailValid && file.Some? && AcceptedImage(file.value) ==>
        && (!RequiredPresent(form) ==> r == MissingFields)
        && (RequiredPresent(form) && HasUsername(old(users), form.username) ==> r == UsernameExists)
        && (RequiredPresent(form) && !HasUsername(old(users), form.username) ==> r == UserCreated)
      ensures r != UserCreated ==> users == old(users) && cache == old(cache)
      ensures r == UserCreated ==>
        var created := CreatedUser(old(users), form, hash);
        && created.id !in Ids(old(users))
        && users == old(users) + [created]
        && cache == old(cache)[USERS_KEY := UserList(users)]
        && FindById(users, created.id) == Some(created)
    {
      if birthDateRejected {
        return InvalidBirthDate;
      }
      if !emailValid {
        return InvalidEmail;
      }
      if file.None? {
        return InvalidFile;
      }
      if !AcceptedImage(file.value) {
        return InvalidImageFormat;
      }
      if !RequiredPresent(form) {
        return MissingFields;
      }
      if HasUsername(users, form.username) {
        return UsernameExists;
      }
      var created := CreatedUser(users, form, hash);
      ghost var before := users;
      users := users + [created];
      assert UniqueIds(users) by {
        forall i, j | 0 <= i < j < |users| ensures users[i].id != users[j].id {
          if j == |before| {
            assert users[i] in before;
          } else {
            assert users[i] == before[i] && users[j] == before[j];
          }
        }
      }
      assert created in users;
      FindByIdUnique(users, created);
      var allUsers := users;
      cache := cache[USERS_KEY := UserList(allUsers)];
      r := UserCreated;
    }

    /** An update: the validations in the handler's order, the lookup of
        the target, then the save and a rebuild of the "users" snapshot
        when the caller may edit the target. `birthDateValid` and
        `emailValid` stand for the handler's format checks. */
    method UpdateUser(callerId: int, callerRole: string, targetId: int, form: UpdateForm,
                      file: Option<Upload>, birthDateValid: bool, emailValid: bool,
                      hash: string -> string) returns (r: Response)
      requires Valid()
      modifies this`users, this`cache
      ensures Valid()
      ensures file.Some? && !AcceptedImage(file.value) ==> r == InvalidImageFormat
      ensures (file.None? || AcceptedImage(file.value)) ==>
        && (!birthDateValid ==> r == InvalidBirthDate)
        && (birthDateValid && !emailValid ==> r == InvalidEmail)
        && (birthDateValid && emailValid && targetId !in Ids(old(users)) ==> r == UserNotFound)
        && (birthDateValid && emailValid && targetId in Ids(old(users)) ==>
              r == if MayEdit(callerId, callerRole, targetId) then UserUpdated else EditForbidden)
      ensures r != UserUpdated ==> users == old(users) && cache == old(cache)
      ensures r == UserUpdated ==>
        && FindById(old(users), targetId).Some?
        && var edited := EditedUser(FindById(old(users), targetId).value, form, hash);
        && users == ReplaceById(old(users), edited)
        && Ids(users) == Ids(old(users))
        && FindById(users, targetId) == Some(edited)
        && cache == old(cache)[USERS_KEY := UserList(users)]
    {
      if file.Some? && !AcceptedImage(file.value) {
        return InvalidImageFormat;
      }
      if !birthDateValid {
        return InvalidBirthDate;
      }
      if !emailValid {
        return InvalidEmail;
      }
      var found := FindById(users, targetId);
      if found.None? {
        return UserNotFound;
      }
      // The fields are assigned before the permission test; without a save
      // the edited value is dropped.
      var edited := EditedUser(found.value, form, hash);
      if MayEdit(callerId, callerRole, targetId) {
        ReplaceByIdFacts(users, edited);
        users := ReplaceById(users, edited);
        var all := users;
        cache := cache[USERS_KEY := UserList(all)];
        r := UserUpdated;
      } else {
        r := EditForbidden;
      }
    }

    /** A delete: the lookup of the target, then, when the caller may edit
        it, the delete, the cascade over the target's blogs, a rebuild of
        the "allBlogs" snapshot and the full rebuild of the user snapshot
        and count. A caller without permission gets the refusal as its
        reply; the success reply that follows it comes too late. */
    method DeleteUser(callerId: int, callerRole: string, targetId: int) returns (r: Response)
      requires Valid()
      modifies this`users, this`blogs, this`cache
      ensures Valid()
      ensures targetId !in Ids(old(users)) ==> r == UserNotFound
      ensures targetId in Ids(old(users)) ==>
        r == if MayEdit(callerId, callerRole, targetId) then UserDeleted else DeleteForbidden
      ensures r != UserDeleted ==> users == old(users) && blogs == old(blogs) && cache == old(cache)
      ensures r == UserDeleted ==>
        && users == RemoveById(old(users), targetId)
        && blogs == BlogsWithout(old(blogs), targetId)
        && cache == old(cache)[ALL_BLOGS_KEY := BlogList(blogs)]
                              [USERS_KEY := UserList(users)]
                              [TOTAL_USERS_KEY := Count(|users|)]
        && Ids(users) == Ids(old(users)) - {targetId}
        && |users| == |old(users)| - 1
        && Consistent()
    {
      var found := FindById(users, targetId);
      if found.None? {
        return UserNotFound;
      }
      if MayEdit(callerId, callerRole, targetId) {
        RemoveByIdUnique(users, targetId);
        users := RemoveById(users, targetId);
        blogs := BlogsWithout(blogs, targetId);
        var allBlogs := blogs;
        cache := cache[ALL_BLOGS_KEY := BlogList(allBlogs)];
        UpdateAllUsersCache();
        r := UserDeleted;
      } else {
        r := DeleteForbidden;
      }
    }
  }
}
