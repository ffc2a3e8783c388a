/** PostRepository: insert, lookup, delete and body update on the post table. */
module PostRepo {
  import opened Schema
  import opened Store

  class PostRepository {
    const session: Session

    constructor (session: Session)
      ensures this.session == session
    {
      this.session := session;
    }

    /** Inserts the post under a fresh id and returns the id; an author that is
        not a user breaks the foreign key and is refused with DbError. */
    method Add(post: Post) returns (r: Result<PostId, StoreError>)
      requires session.Valid()
      modifies session
      ensures session.Valid()
      ensures session.users == old(session.users) && session.actions == old(session.actions)
      ensures r.Err? <==> post.author !in old(session.users)
      ensures r.Err? ==> r.error == DbError && session.posts == old(session.posts)
      ensures r.Ok? ==> r.value !in old(session.posts) && session.posts == old(session.posts)[r.value := post]
    {
      if post.author !in session.users {
        return Err(DbError);
      }
      FreshIdExists(session.posts.Keys);
      var id: PostId :| id !in session.posts;
      session.posts := session.posts[id := post];
      r := Ok(id);
    }

    /** The post with that id, or None. */
    method Get(id: PostId) returns (r: Option<Post>)
      ensures r.Some? <==> id in session.posts
      ensures r.Some? ==> r.value == session.posts[id]
    {
      if id in session.posts {
        r := Some(session.posts[id]);
      } else {
        r := None;
      }
    }

    /** Deletes the post if present, a no-op otherwise; a post that reactions
        still refer to makes the DELETE fail with the store's IntegrityError,
        which the repository does not catch. */
    method Delete(id: PostId) returns (r: Outcome<StoreError>)
      requires session.Valid()
      modifies session
      ensures session.Valid()
      ensures session.users == old(session.users) && session.actions == old(session.actions)
      ensures r.Fail? <==> PostReferenced(old(session.actions), id)
      ensures r.Fail? ==> r.error == IntegrityError && session.posts == old(session.posts)
      ensures r.Pass? ==> session.posts == old(session.posts) - {id}
      ensures id !in old(session.posts) ==> r.Pass? && session.posts == old(session.posts)
    {
      if PostReferenced(session.actions, id) {
        return Fail(IntegrityError);
      }
      session.posts := session.posts - {id};
      r := Pass;
    }

    /** Replaces the body of an existing post, keeping its author; a missing id
        is refused with DbError. */
    method Update(id: PostId, newBody: string) returns (r: Outcome<StoreError>)
      requires session.Valid()
      modifies session
      ensures session.Valid()
      ensures session.users == old(session.users) && session.actions == old(session.actions)
      ensures r.Fail? <==> id !in old(session.posts)
      ensures r.Fail? ==> r.error == DbError && session.posts == old(session.posts)
      ensures r.Pass? ==> session.posts == old(session.posts)[id := Post(newBody, old(session.posts)[id].author)]
    {
      if id !in session.posts {
        return Fail(DbError);
      }
      var row := session.posts[id];
      session.posts := session.posts[id := row.(body := newBody)];
      r := Pass;
    }
  }
}
