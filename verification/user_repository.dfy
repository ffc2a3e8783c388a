/** UserRepository: insert, lookups and delete on the user table. */
module UserRepo {
  import opened Schema
  import opened Store

  class UserRepository {
    const session: Session

    constructor (session: Session)
      ensures this.session == session
    {
      this.session := session;
    }

    /** Inserts a user built from the form under a fresh id and returns the id;
        a repeated username or non-null email is refused with DbError. */
    method Add(form: RegistrationForm) returns (r: Result<UserId, StoreError>)
      requires session.Valid()
      modifies session
      ensures session.Valid()
      ensures session.posts == old(session.posts) && session.actions == old(session.actions)
      ensures r.Err? <==> exists i :: i in old(session.users) && Clashes(old(session.users)[i], form)
      ensures r.Err? ==> r.error == DbError && session.users == old(session.users)
      ensures r.Ok? ==> r.value !in old(session.users) &&
                        session.users == old(session.users)[r.value := User(form.username, form.password, form.email)]
    {
      if exists i :: i in session.users && Clashes(session.users[i], form) {
        return Err(DbError);
      }
      FreshIdExists(session.users.Keys);
      var id: UserId :| id !in session.users;
      session.users := session.users[id := User(form.username, form.password, form.email)];
      r := Ok(id);
    }

    /** The user with that id, or None. */
    method Get(id: UserId) returns (r: Option<User>)
      ensures r.Some? <==> id in session.users
      ensures r.Some? ==> r.value == session.users[id]
    {
      if id in session.users {
        r := Some(session.users[id]);
      } else {
        r := None;
      }
    }

    /** The user row whose username is name, with its id, or None when there is
        none; the username constraint makes that row the only one. */
    method GetByUsername(name: string) returns (r: Option<(UserId, User)>)
      requires session.Valid()
      ensures r.None? <==> forall i :: i in session.users ==> session.users[i].username != name
      ensures r.Some? ==> r.value.0 in session.users && session.users[r.value.0] == r.value.1 && r.value.1.username == name
      ensures r.Some? ==> forall i :: i in session.users && session.users[i].username == name ==> i == r.value.0
    {
      if exists i :: i in session.users && session.users[i].username == name {
        var i :| i in session.users && session.users[i].username == name;
        r := Some((i, session.users[i]));
      } else {
        r := None;
      }
    }

    /** Deletes the user if present, a no-op otherwise; a user that a post or a
        reaction still refers to makes the DELETE fail with the store's
        IntegrityError, which the repository does not catch. */
    method Delete(id: UserId) returns (r: Outcome<StoreError>)
      requires session.Valid()
      modifies session
      ensures session.Valid()
      ensures session.posts == old(session.posts) && session.actions == old(session.actions)
      ensures r.Fail? <==> UserReferenced(old(session.posts), old(session.actions), id)
      ensures r.Fail? ==> r.error == IntegrityError && session.users == old(session.users)
      ensures r.Pass? ==> session.users == old(session.users) - {id}
      ensures id !in old(session.users) ==> r.Pass? && session.users == old(session.users)
    {
      if UserReferenced(session.posts, session.actions, id) {
        return Fail(IntegrityError);
      }
      session.users := session.users - {id};
      r := Pass;
    }
  }
}
