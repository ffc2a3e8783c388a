/** Sequences of repository and service calls, each stated as what the
    sequence guarantees: the integration tests' round trips and a like/dislike
    walkthrough of the reaction rules. */
module Scenarios {
  import opened Schema
  import opened Store
  import opened UserRepo
  import opened PostRepo
  import opened ActionRepo
  import opened PostService

  /** A user added and read back carries the registered username and email;
      deleting it again restores the tables. */
  method AddUserThenGet(userRepo: UserRepository, form: RegistrationForm)
    returns (added: Result<UserId, StoreError>, fetched: Option<User>)
    requires userRepo.session.Valid()
    modifies userRepo.session
    ensures userRepo.session.Valid()
    ensures added.Ok? <==> forall i :: i in old(userRepo.session.users) ==> !Clashes(old(userRepo.session.users)[i], form)
    ensures added.Ok? ==> fetched.Some? && fetched.value.username == form.username && fetched.value.email == form.email
    ensures userRepo.session.users == old(userRepo.session.users)
    ensures userRepo.session.posts == old(userRepo.session.posts)
    ensures userRepo.session.actions == old(userRepo.session.actions)
  {
    fetched := None;
    added := userRepo.Add(form);
    if added.Ok? {
      fetched := userRepo.Get(added.value);
      var removed := userRepo.Delete(added.value);
    }
  }

  /** A post added and read back carries its body and author; deleting it
      again restores the tables. */
  method AddPostThenGet(postRepo: PostRepository, post: Post)
    returns (added: Result<PostId, StoreError>, fetched: Option<Post>)
    requires postRepo.session.Valid()
    modifies postRepo.session
    ensures postRepo.session.Valid()
    ensures added.Ok? <==> post.author in old(postRepo.session.users)
    ensures added.Ok? ==> fetched == Some(post)
    ensures postRepo.session.users == old(postRepo.session.users)
    ensures postRepo.session.posts == old(postRepo.session.posts)
    ensures postRepo.session.actions == old(postRepo.session.actions)
  {
    fetched := None;
    added := postRepo.Add(post);
    if added.Ok? {
      fetched := postRepo.Get(added.value);
      var removed := postRepo.Delete(added.value);
    }
  }

  /** A reaction added and then deleted leaves the reaction table as it was;
      a refused add raises, so the delete is never reached. */
  method AddActionThenDelete(actRepo: PostActionRepository, user: UserId, post: PostId, action: Action)
    returns (added: Outcome<StoreError>)
    requires actRepo.session.Valid()
    modifies actRepo.session
    ensures actRepo.session.Valid()
    ensures added.Pass? ==> actRepo.session.actions == old(actRepo.session.actions)
    ensures added.Fail? <==> PostAction(user, post, action) in old(actRepo.session.actions) ||
                             user !in old(actRepo.session.users) || post !in old(actRepo.session.posts)
    ensures added.Fail? ==> actRepo.session.actions == old(actRepo.session.actions)
  {
    added := actRepo.Add(user, post, action);
    if added.Pass? {
      actRepo.Delete(user, post, action);
    }
  }

  /** User a writes a post; user b likes it, likes it again (a duplicate),
      then dislikes it; a then tries to like their own post. b ends with the
      one dislike and nothing else is stored. */
  method LikeDislikeWalkthrough()
    returns (a: UserId, b: UserId, p: PostId,
             liked: Outcome<ServiceError>, again: Outcome<ServiceError>,
             disliked: Outcome<ServiceError>, selfRated: Outcome<ServiceError>,
             rows: set<PostAction>)
    ensures a != b
    ensures liked == Pass && again == Fail(ActionDuplicateError) && disliked == Pass
    ensures selfRated == Fail(NotPermissionsError)
    ensures rows == {PostAction(b, p, Dislike)}
  {
    var session := new Session();
    var userRepo := new UserRepository(session);
    var postRepo := new PostRepository(session);
    var actRepo := new PostActionRepository(session);

    var ra := userRepo.Add(RegistrationForm("alice", "hash-a", None));
    a := ra.value;
    assert "alice" != "bob" by { assert "alice"[0] != "bob"[0]; }
    var rb := userRepo.Add(RegistrationForm("bob", "hash-b", None));
    b := rb.value;
    var rp := CreatePost(Post("hello", a), postRepo);
    p := rp.value;
    assert session.posts[p].author == a && session.actions == {};

    liked := RatePost(p, b, Like, postRepo, userRepo, actRepo);
    assert session.actions == {PostAction(b, p, Like)};
    again := RatePost(p, b, Like, postRepo, userRepo, actRepo);
    assert session.actions == {PostAction(b, p, Like)};
    disliked := RatePost(p, b, Dislike, postRepo, userRepo, actRepo);
    assert session.actions == {PostAction(b, p, Dislike)};
    selfRated := RatePost(p, a, Like, postRepo, userRepo, actRepo);
    rows := actRepo.ListBy(None, None, None);
  }
}
