/** The in-memory database the repositories share: the user, post and
    post_action tables, with the key, uniqueness and foreign-key constraints
    the migration declares. */
module Store {
  import opened Schema

  /** A registration clashes with an existing user when it repeats the username,
      or repeats a non-null email (a unique column admits several NULLs). */
  predicate Clashes(u: User, form: RegistrationForm) {
    u.username == form.username || (form.email.Some? && u.email == form.email)
  }

  /** Unique constraints on username and on email. */
  ghost predicate UniqueUserAttrs(users: map<UserId, User>) {
    forall i, j :: i in users && j in users && i != j ==>
      users[i].username != users[j].username &&
      (users[i].email.Some? ==> users[i].email != users[j].email)
  }

  /** Foreign key post.author_id -> user.id. */
  ghost predicate AuthorsExist(users: map<UserId, User>, posts: map<PostId, Post>) {
    forall p :: p in posts ==> posts[p].author in users
  }

  /** Foreign keys post_action.user_id -> user.id and post_action.post_id -> post.id. */
  ghost predicate ActionTargetsExist(users: map<UserId, User>, posts: map<PostId, Post>, actions: set<PostAction>) {
    forall a :: a in actions ==> a.user in users && a.post in posts
  }

  ghost predicate Consistent(users: map<UserId, User>, posts: map<PostId, Post>, actions: set<PostAction>) {
    UniqueUserAttrs(users) && AuthorsExist(users, posts) && ActionTargetsExist(users, posts, actions)
  }

  /** A user row that some post or reaction still refers to cannot be deleted. */
  predicate UserReferenced(posts: map<PostId, Post>, actions: set<PostAction>, id: UserId) {
    (exists p :: p in posts && posts[p].author == id) || (exists a :: a in actions && a.user == id)
  }

  /** A post row that some reaction still refers to cannot be deleted. */
  predicate PostReferenced(actions: set<PostAction>, id: PostId) {
    exists a :: a in actions && a.post == id
  }

  /** The reactions of user u to post p, whatever the action. */
  function ReactionsOf(actions: set<PostAction>, u: UserId, p: PostId): set<PostAction> {
    set a | a in actions && a.user == u && a.post == p
  }

  /** The reactions left when every reaction to post p is gone. */
  function WithoutPost(actions: set<PostAction>, p: PostId): set<PostAction> {
    set a | a in actions && a.post != p
  }

  /** The database session: the three tables, updated in place by the repositories. */
  class Session {
    var users: map<UserId, User>
    var posts: map<PostId, Post>
    var actions: set<PostAction>

    ghost predicate Valid()
      reads this
    {
      Consistent(users, posts, actions)
    }

    constructor ()
      ensures Valid()
      ensures users == map[] && posts == map[] && actions == {}
    {
      users, posts, actions := map[], map[], {};
    }
  }

  /** A strict upper bound of a finite set of identifiers. */
  ghost function Bound(keys: set<nat>): (b: nat)
    ensures forall k :: k in keys ==> k < b
    decreases keys
  {
    if keys == {} then 0
    else
      var k :| k in keys;
      var rest := Bound(keys - {k});
      assert forall j :: j in keys ==> j == k || j in keys - {k};
      if rest <= k then k + 1 else rest
  }

  /** A table always has an unused identifier, so generating a fresh key cannot fail. */
  lemma FreshIdExists(keys: set<nat>)
    ensures exists n: nat :: n !in keys
  {
    var b := Bound(keys);
    assert b !in keys;
  }
}
