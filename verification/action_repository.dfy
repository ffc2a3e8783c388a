/** PostActionRepository: insert, filtered listing and deletes on the
    post_action table of (user, post, action) triples. */
module ActionRepo {
  import opened Schema
  import opened Store

  /** The filters list_by may be given; an absent filter selects everything. */
  predicate Matches(post: Option<PostId>, user: Option<UserId>, action: Option<Action>, a: PostAction) {
    (post.None? || a.post == post.value) &&
    (user.None? || a.user == user.value) &&
    (action.None? || a.action == action.value)
  }

  class PostActionRepository {
    const session: Session

    constructor (session: Session)
      ensures this.session == session
    {
      this.session := session;
    }

    /** Inserts the triple; an existing triple (primary key) or a user or post
        that does not exist (foreign keys) is refused with DbError. */
    method Add(user: UserId, post: PostId, action: Action) returns (r: Outcome<StoreError>)
      requires session.Valid()
      modifies session
      ensures session.Valid()
      ensures session.users == old(session.users) && session.posts == old(session.posts)
      ensures r.Fail? <==> PostAction(user, post, action) in old(session.actions) ||
                           user !in old(session.users) || post !in old(session.posts)
      ensures r.Fail? ==> r.error == DbError && session.actions == old(session.actions)
      ensures r.Pass? ==> session.actions == old(session.actions) + {PostAction(user, post, action)}
    {
      var row := PostAction(user, post, action);
      if row in session.actions || user !in session.users || post !in session.posts {
        return Fail(DbError);
      }
      session.actions := session.actions + {row};
      r := Pass;
    }

    /** The triples that satisfy every filter given (conjunctively); with no
        filter, the whole table. The query is narrowed one filter at a time. */
    method ListBy(post: Option<PostId>, user: Option<UserId>, action: Option<Action>) returns (rows: set<PostAction>)
      ensures forall a :: a in rows <==> a in session.actions && Matches(post, user, action, a)
      ensures post.None? && user.None? && action.None? ==> rows == session.actions
    {
      rows := session.actions;
      if post.Some? {
        rows := set a | a in rows && a.post == post.value;
      }
      if user.Some? {
        rows := set a | a in rows && a.user == user.value;
      }
      if action.Some? {
        rows := set a | a in rows && a.action == action.value;
      }
    }

    /** Removes exactly the triple (user, post, action); nothing happens when it is absent. */
    method Delete(user: UserId, post: PostId, action: Action)
      requires session.Valid()
      modifies session
      ensures session.Valid()
      ensures session.users == old(session.users) && session.posts == old(session.posts)
      ensures session.actions == old(session.actions) - {PostAction(user, post, action)}
    {
      session.actions := session.actions - {PostAction(user, post, action)};
    }

    /** Removes every reaction of user to post, whatever its action. */
    method DeleteByPostUserId(post: PostId, user: UserId)
      requires session.Valid()
      modifies session
      ensures session.Valid()
      ensures session.users == old(session.users) && session.posts == old(session.posts)
      ensures session.actions == old(session.actions) - ReactionsOf(old(session.actions), user, post)
      ensures forall a :: a in session.actions ==> a.user != user || a.post != post
    {
      session.actions := session.actions - ReactionsOf(session.actions, user, post);
    }
  }
}
