/** The post service: post creation, lookup, update and deletion, and the
    like/dislike rules, over the three repositories sharing one session. */
module PostService {
  import opened Schema
  import opened Store
  import opened UserRepo
  import opened PostRepo
  import opened ActionRepo

  /** The reaction rules the service keeps (the tables do not enforce them):
      at most one reaction per (user, post) pair, and no reaction by the post's author. */
  ghost predicate AtMostOneReaction(actions: set<PostAction>) {
    forall a, b :: a in actions && b in actions && a.user == b.user && a.post == b.post ==> a == b
  }

  ghost predicate NoSelfReaction(posts: map<PostId, Post>, actions: set<PostAction>) {
    forall a :: a in actions && a.post in posts ==> posts[a.post].author != a.user
  }

  ghost predicate ReactionRules(posts: map<PostId, Post>, actions: set<PostAction>) {
    AtMostOneReaction(actions) && NoSelfReaction(posts, actions)
  }

  /** The reaction table after user u's reactions to post p are replaced by one
      with action a: what a successful rate_post leaves behind. */
  function Rerated(actions: set<PostAction>, u: UserId, p: PostId, a: Action): set<PostAction> {
    (actions - ReactionsOf(actions, u, p)) + {PostAction(u, p, a)}
  }

  /** The state of one (user, post) pair. */
  datatype Reaction = NoReaction | Liked | Disliked

  function Held(a: Action): Reaction {
    match a
    case Like => Liked
    case Dislike => Disliked
  }

  function ReactionOf(actions: set<PostAction>, u: UserId, p: PostId): Reaction {
    if PostAction(u, p, Like) in actions then Liked
    else if PostAction(u, p, Dislike) in actions then Disliked
    else NoReaction
  }

  /** The state machine of one pair: rating with the held action is a duplicate,
      any other rating moves to that action. */
  function RateTransition(s: Reaction, a: Action): Result<Reaction, ServiceError> {
    if s == Held(a) then Err(ActionDuplicateError) else Ok(Held(a))
  }

  /** Removing a rating succeeds only from the state that holds it. */
  function RemoveTransition(s: Reaction, a: Action): Result<Reaction, ServiceError> {
    if s == Held(a) then Ok(NoReaction) else Err(NotPermissionsError)
  }

  /** Under the one-reaction rule, the pair's reactions are exactly the one its state names. */
  lemma {:induction false} ReactionsMatchState(actions: set<PostAction>, u: UserId, p: PostId)
    requires AtMostOneReaction(actions)
    ensures ReactionOf(actions, u, p) == NoReaction ==> ReactionsOf(actions, u, p) == {}
    ensures ReactionOf(actions, u, p) == Liked ==> ReactionsOf(actions, u, p) == {PostAction(u, p, Like)}
    ensures ReactionOf(actions, u, p) == Disliked ==> ReactionsOf(actions, u, p) == {PostAction(u, p, Dislike)}
    ensures |ReactionsOf(actions, u, p)| <= 1
  {
    var rs := ReactionsOf(actions, u, p);
    forall x | x in rs
      ensures x == PostAction(u, p, x.action)
      ensures x == PostAction(u, p, Like) || x == PostAction(u, p, Dislike)
    {
      match x.action
      case Like =>
      case Dislike =>
    }
    match ReactionOf(actions, u, p)
    case NoReaction =>
      assert rs == {};
    case Liked =>
      assert rs == {PostAction(u, p, Like)};
    case Disliked =>
      assert rs == {PostAction(u, p, Dislike)};
  }

  /** Rerating one pair leaves the state of every other pair as it was. */
  lemma RerateKeepsOtherPairs(actions: set<PostAction>, u: UserId, p: PostId, a: Action, v: UserId, q: PostId)
    requires v != u || q != p
    ensures ReactionOf(Rerated(actions, u, p, a), v, q) == ReactionOf(actions, v, q)
  {
  }

  /** Rerating a pair leaves exactly the requested row for it, whatever the table held. */
  lemma RerateLeavesRequestedRow(actions: set<PostAction>, u: UserId, p: PostId, a: Action)
    ensures ReactionsOf(Rerated(actions, u, p, a), u, p) == {PostAction(u, p, a)}
  {
  }

  /** Rerating a pair keeps the one-reaction rule. */
  lemma RerateLeavesOneReaction(actions: set<PostAction>, u: UserId, p: PostId, a: Action)
    requires AtMostOneReaction(actions)
    ensures AtMostOneReaction(Rerated(actions, u, p, a))
  {
    RerateLeavesRequestedRow(actions, u, p, a);
  }

  /** A successful rate_post follows the state machine: the rated pair ends in
      the requested state with exactly one row, and the one-reaction rule still holds. */
  lemma {:induction false} RateFollowsStateMachine(actions: set<PostAction>, u: UserId, p: PostId, a: Action)
    requires AtMostOneReaction(actions)
    ensures RateTransition(ReactionOf(actions, u, p), a) ==
            if PostAction(u, p, a) in actions then Err(ActionDuplicateError)
            else Ok(ReactionOf(Rerated(actions, u, p, a), u, p))
    ensures AtMostOneReaction(Rerated(actions, u, p, a))
    ensures |ReactionsOf(Rerated(actions, u, p, a), u, p)| == 1
  {
    ReactionsMatchState(actions, u, p);
    RerateLeavesRequestedRow(actions, u, p, a);
    RerateLeavesOneReaction(actions, u, p, a);
    var after := Rerated(actions, u, p, a);
    assert PostAction(u, p, a) in after;
    assert ReactionsOf(after, u, p) == {PostAction(u, p, a)};
    assert a == Like ==> PostAction(u, p, Dislike) !in after;
  }

  /** A successful delete_post_rate follows the state machine: it leaves the pair with no reaction. */
  lemma {:induction false} RemoveFollowsStateMachine(actions: set<PostAction>, u: UserId, p: PostId, a: Action)
    requires AtMostOneReaction(actions)
    ensures RemoveTransition(ReactionOf(actions, u, p), a) ==
            if PostAction(u, p, a) in actions then Ok(ReactionOf(actions - {PostAction(u, p, a)}, u, p))
            else Err(NotPermissionsError)
  {
  }

  /** Rating someone else's post keeps the reaction rules. */
  lemma RateKeepsReactionRules(posts: map<PostId, Post>, actions: set<PostAction>, u: UserId, p: PostId, a: Action)
    requires ReactionRules(posts, actions)
    requires p in posts && posts[p].author != u
    ensures ReactionRules(posts, Rerated(actions, u, p, a))
  {
  }

  /** A creation: the post is stored under a fresh id; an author that is not a
      user is reported as NoUserError. */
  method CreatePost(post: Post, postRepo: PostRepository) returns (r: Result<PostId, ServiceError>)
    requires postRepo.session.Valid()
    modifies postRepo.session
    ensures postRepo.session.Valid()
    ensures postRepo.session.users == old(postRepo.session.users)
    ensures postRepo.session.actions == old(postRepo.session.actions)
    ensures r.Err? <==> post.author !in old(postRepo.session.users)
    ensures r.Err? ==> r.error == NoUserError && postRepo.session.posts == old(postRepo.session.posts)
    ensures r.Ok? ==> r.value !in old(postRepo.session.posts) &&
                      postRepo.session.posts == old(postRepo.session.posts)[r.value := post]
    ensures ReactionRules(old(postRepo.session.posts), old(postRepo.session.actions)) ==>
            ReactionRules(postRepo.session.posts, postRepo.session.actions)
  {
    var added := postRepo.Add(post);
    match added
    case Ok(id) => r := Ok(id);
    case Err(_) => r := Err(NoUserError);
  }

  /** The post with that id, or None. */
  method GetPost(postId: PostId, postRepo: PostRepository) returns (r: Option<Post>)
    ensures r.Some? <==> postId in postRepo.session.posts
    ensures r.Some? ==> r.value == postRepo.session.posts[postId]
  {
    r := postRepo.Get(postId);
  }

  /** Only the author may edit; the check reads the post without testing that it exists. */
  method HavePermissionsToEditPost(postId: PostId, user: UserId, postRepo: PostRepository) returns (b: bool)
    requires postId in postRepo.session.posts
    ensures b <==> postRepo.session.posts[postId].author == user
  {
    var post := postRepo.Get(postId);
    b := post.value.author == user;
  }

  /** Only the author may delete; the check reads the post without testing that it exists. */
  method HavePermissionsToDeletePost(postId: PostId, user: UserId, postRepo: PostRepository) returns (b: bool)
    requires postId in postRepo.session.posts
    ensures b <==> postRepo.session.posts[postId].author == user
  {
    var post := postRepo.Get(postId);
    b := post.value.author == user;
  }

  /** Anyone but the author may rate; the check reads the post without testing that it exists. */
  method HavePermissionsToRatePost(postId: PostId, user: UserId, postRepo: PostRepository) returns (b: bool)
    requires postId in postRepo.session.posts
    ensures b <==> postRepo.session.posts[postId].author != user
  {
    var post := postRepo.Get(postId);
    b := post.value.author != user;
  }

  /** A reaction may be removed only when the user holds exactly that action on the post:
      the user's reactions to the post are scanned for it. */
  method HavePermissionsToDeletePostAct(postId: PostId, user: UserId, action: Action, actRepo: PostActionRepository)
    returns (b: bool)
    ensures b <==> PostAction(user, postId, action) in actRepo.session.actions
  {
    var acts := actRepo.ListBy(Some(postId), Some(user), None);
    var remaining := acts;
    while remaining != {}
      invariant remaining <= acts
      invariant forall a :: a in acts - remaining ==> a.action != action
      decreases remaining
    {
      var a :| a in remaining;
      if a.action == action {
        return true;
      }
      remaining := remaining - {a};
    }
    b := false;
  }

  /** An edit by the author replaces the body; anyone else gets NotPermissionsError.
      The permission check reads the post first, so the post must exist. */
  method UpdatePost(postId: PostId, newBody: string, user: UserId, postRepo: PostRepository)
    returns (r: Outcome<ServiceError>)
    requires postRepo.session.Valid()
    requires postId in postRepo.session.posts
    modifies postRepo.session
    ensures postRepo.session.Valid()
    ensures postRepo.session.users == old(postRepo.session.users)
    ensures postRepo.session.actions == old(postRepo.session.actions)
    ensures r == Pass <==> old(postRepo.session.posts)[postId].author == user
    ensures r.Fail? ==> r.error == NotPermissionsError && postRepo.session.posts == old(postRepo.session.posts)
    ensures r.Pass? ==> postRepo.session.posts ==
                        old(postRepo.session.posts)[postId := Post(newBody, user)]
  {
    var permitted := HavePermissionsToEditPost(postId, user, postRepo);
    if !permitted {
      return Fail(NotPermissionsError);
    }
    var updated := postRepo.Update(postId, newBody);
    if updated.Fail? {
      return Fail(NoPostError);
    }
    r := Pass;
  }

  /** A deletion by the author first removes every reaction to the post, user by
      user, then the post itself; afterwards neither remains. */
  method DeletePost(postId: PostId, user: UserId,
                    postRepo: PostRepository, userRepo: UserRepository, actRepo: PostActionRepository)
    returns (r: Outcome<ServiceError>)
    requires postRepo.session == userRepo.session == actRepo.session
    requires postRepo.session.Valid()
    modifies postRepo.session
    ensures postRepo.session.Valid()
    ensures postRepo.session.users == old(postRepo.session.users)
    ensures r == Fail(NoUserError) <==> user !in old(postRepo.session.users)
    ensures r == Fail(NoPostError) <==> user in old(postRepo.session.users) && postId !in old(postRepo.session.posts)
    ensures r == Fail(NotPermissionsError) <==>
            user in old(postRepo.session.users) && postId in old(postRepo.session.posts) &&
            old(postRepo.session.posts)[postId].author != user
    ensures r == Pass <==>
            user in old(postRepo.session.users) && postId in old(postRepo.session.posts) &&
            old(postRepo.session.posts)[postId].author == user
    ensures r.Fail? ==> postRepo.session.posts == old(postRepo.session.posts) &&
                        postRepo.session.actions == old(postRepo.session.actions)
    ensures r.Pass? ==> postRepo.session.posts == old(postRepo.session.posts) - {postId} &&
                        postRepo.session.actions == WithoutPost(old(postRepo.session.actions), postId)
    ensures r.Pass? ==> forall a :: a in postRepo.session.actions ==> a.post != postId
    ensures ReactionRules(old(postRepo.session.posts), old(postRepo.session.actions)) ==>
            ReactionRules(postRepo.session.posts, postRepo.session.actions)
  {
    var userRow := userRepo.Get(user);
    if userRow.None? {
      return Fail(NoUserError);
    }
    var post := postRepo.Get(postId);
    if post.None? {
      return Fail(NoPostError);
    }
    var permitted := HavePermissionsToDeletePost(postId, user, postRepo);
    if !permitted {
      return Fail(NotPermissionsError);
    }

    var acts := actRepo.ListBy(Some(postId), None, None);
    var remaining := acts;
    while remaining != {}
      invariant remaining <= acts
      invariant postRepo.session.Valid()
      invariant postRepo.session.users == old(postRepo.session.users)
      invariant postRepo.session.posts == old(postRepo.session.posts)
      invariant postRepo.session.actions <= old(postRepo.session.actions)
      invariant forall a :: a in old(postRepo.session.actions) && a !in postRepo.session.actions ==> a.post == postId
      invariant forall a :: a in postRepo.session.actions && a.post == postId ==> a in remaining
      decreases remaining
    {
      var act :| act in remaining;
      actRepo.DeleteByPostUserId(postId, act.user);
      remaining := remaining - {act};
    }
    assert postRepo.session.actions == WithoutPost(old(postRepo.session.actions), postId);

    var deleted := postRepo.Delete(postId);
    match deleted
    case Fail(e) => r := Fail(Store(e));
    case Pass => r := Pass;
  }

  /** A rating: the user and the post must exist and the user must not be the
      author. An action the user already holds is a duplicate; an opposite one
      is deleted before the requested one is inserted. */
  method RatePost(postId: PostId, user: UserId, action: Action,
                  postRepo: PostRepository, userRepo: UserRepository, actRepo: PostActionRepository)
    returns (r: Outcome<ServiceError>)
    requires postRepo.session == userRepo.session == actRepo.session
    requires postRepo.session.Valid()
    modifies postRepo.session
    ensures postRepo.session.Valid()
    ensures postRepo.session.users == old(postRepo.session.users)
    ensures postRepo.session.posts == old(postRepo.session.posts)
    ensures r == Fail(NoUserError) <==> user !in old(postRepo.session.users)
    ensures r == Fail(NoPostError) <==> user in old(postRepo.session.users) && postId !in old(postRepo.session.posts)
    ensures r == Fail(NotPermissionsError) <==>
            user in old(postRepo.session.users) && postId in old(postRepo.session.posts) &&
            old(postRepo.session.posts)[postId].author == user
    ensures r == Fail(ActionDuplicateError) <==>
            user in old(postRepo.session.users) && postId in old(postRepo.session.posts) &&
            old(postRepo.session.posts)[postId].author != user &&
            PostAction(user, postId, action) in old(postRepo.session.actions)
    ensures r == Pass <==>
            user in old(postRepo.session.users) && postId in old(postRepo.session.posts) &&
            old(postRepo.session.posts)[postId].author != user &&
            PostAction(user, postId, action) !in old(postRepo.session.actions)
    ensures r.Fail? && r.error != ActionDuplicateError ==>
            postRepo.session.actions == old(postRepo.session.actions)
    // A duplicate may already have deleted an opposite reaction met first in the scan.
    ensures r == Fail(ActionDuplicateError) ==>
            postRepo.session.actions <= old(postRepo.session.actions) &&
            PostAction(user, postId, action) in postRepo.session.actions &&
            old(postRepo.session.actions) - postRepo.session.actions <= ReactionsOf(old(postRepo.session.actions), user, postId)
    ensures r == Fail(ActionDuplicateError) && AtMostOneReaction(old(postRepo.session.actions)) ==>
            postRepo.session.actions == old(postRepo.session.actions)
    ensures r.Pass? ==> postRepo.session.actions == Rerated(old(postRepo.session.actions), user, postId, action)
    ensures ReactionRules(old(postRepo.session.posts), old(postRepo.session.actions)) ==>
            ReactionRules(postRepo.session.posts, postRepo.session.actions)
  {
    var userRow := userRepo.Get(user);
    if userRow.None? {
      return Fail(NoUserError);
    }
    var post := postRepo.Get(postId);
    if post.None? {
      return Fail(NoPostError);
    }
    var permitted := HavePermissionsToRatePost(postId, user, postRepo);
    if !permitted {
      return Fail(NotPermissionsError);
    }

    ghost var before := postRepo.session.actions;
    var acts := actRepo.ListBy(Some(postId), Some(user), None);
    assert acts == ReactionsOf(before, user, postId);
    var remaining := acts;
    var duplicate := false;
    while remaining != {}
      invariant remaining <= acts
      invariant postRepo.session.Valid()
      invariant postRepo.session.users == old(postRepo.session.users)
      invariant postRepo.session.posts == old(postRepo.session.posts)
      invariant postRepo.session.actions == before - (acts - remaining)
      invariant forall a :: a in acts - remaining ==> a.action != action
      invariant !duplicate
      decreases remaining
    {
      var act :| act in remaining;
      if act.action == action {
        assert act == PostAction(user, postId, action);
        duplicate := true;
        break;
      }
      actRepo.Delete(user, postId, act.action);
      remaining := remaining - {act};
    }
    if duplicate {
      ghost var deleted := acts - remaining;
      assert forall a :: a in deleted ==> a.action != action;
      return Fail(ActionDuplicateError);
    }

    assert postRepo.session.actions == before - ReactionsOf(before, user, postId);
    var added := actRepo.Add(user, postId, action);
    match added
    case Fail(e) => return Fail(Store(e));
    case Pass => r := Pass;
    if ReactionRules(old(postRepo.session.posts), old(postRepo.session.actions)) {
      RateKeepsReactionRules(postRepo.session.posts, before, user, postId, action);
    }
  }

  /** A removal: the user and the post must exist, and the user must hold
      exactly that action on the post (else NotPermissionsError); only that
      triple is deleted. */
  method DeletePostRate(postId: PostId, user: UserId, action: Action,
                        postRepo: PostRepository, userRepo: UserRepository, actRepo: PostActionRepository)
    returns (r: Outcome<ServiceError>)
    requires postRepo.session == userRepo.session == actRepo.session
    requires postRepo.session.Valid()
    modifies postRepo.session
    ensures postRepo.session.Valid()
    ensures postRepo.session.users == old(postRepo.session.users)
    ensures postRepo.session.posts == old(postRepo.session.posts)
    ensures r == Fail(NoUserError) <==> user !in old(postRepo.session.users)
    ensures r == Fail(NoPostError) <==> user in old(postRepo.session.users) && postId !in old(postRepo.session.posts)
    ensures r == Fail(NotPermissionsError) <==>
            user in old(postRepo.session.users) && postId in old(postRepo.session.posts) &&
            PostAction(user, postId, action) !in old(postRepo.session.actions)
    ensures r == Pass <==>
            user in old(postRepo.session.users) && postId in old(postRepo.session.posts) &&
            PostAction(user, postId, action) in old(postRepo.session.actions)
    ensures r.Fail? ==> postRepo.session.actions == old(postRepo.session.actions)
    ensures r.Pass? ==> postRepo.session.actions == old(postRepo.session.actions) - {PostAction(user, postId, action)}
    ensures ReactionRules(old(postRepo.session.posts), old(postRepo.session.actions)) ==>
            ReactionRules(postRepo.session.posts, postRepo.session.actions)
  {
    var userRow := userRepo.Get(user);
    if userRow.None? {
      return Fail(NoUserError);
    }
    var post := postRepo.Get(postId);
    if post.None? {
      return Fail(NoPostError);
    }
    var permitted := HavePermissionsToDeletePostAct(postId, user, action, actRepo);
    if !permitted {
      return Fail(NotPermissionsError);
    }
    actRepo.Delete(user, postId, action);
    r := Pass;
  }
}
