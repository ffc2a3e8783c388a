# soc_network post reactions, modelled in Dafny

This project models the post and reaction (like/dislike) core of the
soc_network backend. It has three parts:

- **The tables** (`Store.Session`). The user table maps an id to a username, a
  hashed password and a nullable email. The post table maps an id to a body
  and an author. The post_action table is a set of (user, post, action)
  triples, and all three fields form its primary key. `Session.Valid()` holds
  the constraints the migration declares: unique usernames, unique non-null
  emails, and the foreign keys post -> user and post_action -> user and post.
- **The repositories** (`UserRepo.UserRepository`, `PostRepo.PostRepository`,
  `ActionRepo.PostActionRepository`). These are classes that share one
  session and update its tables in place. Every method keeps `Valid()`. A
  constraint violation the repository catches becomes `DbError`. A DELETE of
  a row that a foreign key still refers to fails with the store's
  `IntegrityError`, which the repository does not catch. Deleting an absent
  row does nothing.
- **The post service** (`PostService`). These are the service's operations
  over the three repositories. Each of `RatePost`, `DeletePostRate` and
  `DeletePost` states, for every error (`NoUserError`, `NoPostError`,
  `NotPermissionsError`, `ActionDuplicateError`), exactly when it is raised,
  and what the tables hold afterwards.

Each (user, post) pair is a small state machine with the states NoReaction,
Liked and Disliked (`ReactionOf`, `RateTransition`, `RemoveTransition`). The
service keeps two reaction rules that the tables themselves do not enforce
(`ReactionRules`):

- a user holds at most one reaction per post;
- no user reacts to their own post.

Every service operation preserves these rules. `RatePost`, `DeletePostRate` and
`DeletePost` loop over the rows a query returned, as the source does. The
loop visits the rows in an arbitrary order, because the database guarantees
none.

Two facts about the code shape the model:

- The code has no cache layer. Reactions are read and written only through
  the store.
- `delete_post` calls `delete_by_post_user_id` once per reaction row, not
  once per distinct user. A second call for the same user removes nothing.

## Model

| member | source | states |
|---|---|---|
| UserRepo.UserRepository.Add | soc_network/repositories/user_repository.py:14-22 | Inserts the user under an id not in the table and returns that id. If the username or a non-null email is already taken, it returns DbError and the table is unchanged. Uniqueness is preserved. |
| UserRepo.UserRepository.Get | soc_network/repositories/user_repository.py:24-29 | Returns the stored row for the id, or None exactly when the id is absent. |
| UserRepo.UserRepository.GetByUsername | soc_network/repositories/user_repository.py:33-38 | Returns the row with that username and its id, or None exactly when no row has it. That row is the only one with the username. |
| UserRepo.UserRepository.Delete | soc_network/repositories/user_repository.py:40-43 | Removes only that user. Does nothing when the id is absent. Fails with IntegrityError, changing nothing, exactly when a post or reaction still refers to the user. |
| PostRepo.PostRepository.Add | soc_network/repositories/post_repository.py:15-24 | Stores the post under a fresh id and returns that id. If the author does not exist, it returns DbError and nothing is added, as the test of a post by a non-existent user expects. |
| PostRepo.PostRepository.Get | soc_network/repositories/post_repository.py:26-31 | Returns the stored post, or None exactly when the id is absent. |
| PostRepo.PostRepository.Delete | soc_network/repositories/post_repository.py:33-36 | Removes only that post, and is a no-op when it is absent. Fails with IntegrityError, changing nothing, exactly when reactions still refer to the post. |
| PostRepo.PostRepository.Update | soc_network/repositories/post_repository.py:38-44 | Replaces only the body of an existing post, keeping its author and every other post. A missing id gives DbError and no change. |
| ActionRepo.PostActionRepository.Add | soc_network/repositories/action_repository.py:13-22 | Inserts the triple. Returns DbError, table unchanged, exactly when the triple already exists or its user or post is missing. |
| ActionRepo.PostActionRepository.ListBy | soc_network/repositories/action_repository.py:24-38 | Returns exactly the triples that match every filter given, combined conjunctively. With no filter it returns the whole table. |
| ActionRepo.PostActionRepository.Delete | soc_network/repositories/action_repository.py:40-52 | Removes exactly that triple, does nothing when it is absent, and leaves every other triple in place. |
| ActionRepo.PostActionRepository.DeleteByPostUserId | soc_network/repositories/action_repository.py:54-65 | Removes every reaction of the user to the post, whatever its action. Leaves every other triple in place. |
| PostService.CreatePost | soc_network/services/post/service.py:10-17 | Stores the post under a fresh id. An author who does not exist gives NoUserError and no change. The reaction rules are kept. |
| PostService.GetPost | soc_network/services/post/service.py:20-24 | Returns the stored post, or None exactly when it is absent. |
| PostService.UpdatePost | soc_network/services/post/service.py:27-39 | Succeeds exactly when the caller is the author, and then changes only that post's body. Anyone else gets NotPermissionsError and no change. |
| PostService.DeletePost | soc_network/services/post/service.py:42-66 | Gives NoUserError, NoPostError or NotPermissionsError, with no change, under exactly the stated conditions. For the author it succeeds: every reaction to the post is removed first, then the post, and no reaction to it remains. The final post delete provably cannot hit the foreign key. |
| PostService.RatePost | soc_network/services/post/service.py:69-102 | Gives NoUserError, NoPostError, NotPermissionsError (self-rating, whatever the action) and ActionDuplicateError exactly under the source's checks, in the source's order. On success the user's only reaction to the post is the requested one, any opposite one having been deleted, and every other triple is untouched. Under the one-reaction rule a duplicate changes nothing. The reaction rules are kept. |
| PostService.DeletePostRate | soc_network/services/post/service.py:105-131 | Gives NotPermissionsError, with no change, exactly when the user and post exist but that triple does not. Otherwise removes exactly that triple. The reaction rules are kept. |
| PostService.HavePermissionsToEditPost | soc_network/services/post/service.py:134-140 | True exactly when the caller is the post's author. The post must exist. |
| PostService.HavePermissionsToDeletePost | soc_network/services/post/service.py:143-149 | True exactly when the caller is the post's author. The post must exist. |
| PostService.HavePermissionsToRatePost | soc_network/services/post/service.py:152-158 | True exactly when the caller is not the post's author. The post must exist. |
| PostService.HavePermissionsToDeletePostAct | soc_network/services/post/service.py:161-171 | Scanning the user's reactions to the post finds the action exactly when that triple is stored. |
| PostService.ReactionsMatchState | soc_network/services/post/service.py:89-100 | Under the one-reaction rule, a pair's rows are exactly the one reaction its state names, so there is at most one row. |
| PostService.RerateLeavesRequestedRow | soc_network/services/post/service.py:89-102 | After a rating, whatever the table held before, the rated pair has exactly one row: the requested one. |
| PostService.RerateLeavesOneReaction | soc_network/services/post/service.py:89-102 | A rating keeps the one-reaction rule. |
| PostService.RerateKeepsOtherPairs | soc_network/services/post/service.py:89-102 | A rating leaves the state of every other (user, post) pair unchanged. |
| PostService.RateFollowsStateMachine | soc_network/services/post/service.py:89-102 | Under the one-reaction rule, the duplicate check on the stored triple agrees with the state machine: rating with the held action is a duplicate, and any other rating moves the pair to that action with exactly one row. |
| PostService.RemoveFollowsStateMachine | soc_network/services/post/service.py:121-131 | Under the one-reaction rule, removing a reaction succeeds exactly from the state that holds it and leaves the pair with no reaction. |
| PostService.RateKeepsReactionRules | soc_network/services/post/service.py:85-102 | Rating someone else's post keeps both reaction rules. |
| Scenarios.AddUserThenGet | tests/test_integration/test_repository.py:13-24 | A user that is added and read back has the registered username and email. Deleting it restores all three tables. |
| Scenarios.AddPostThenGet | tests/test_integration/test_repository.py:28-46 | A post that is added and read back has its body and author. Deleting it restores the tables. |
| Scenarios.AddActionThenDelete | tests/test_integration/test_repository.py:142-153 | A reaction that is added and then deleted leaves the reaction table as it was. An add refused with DbError (a stored triple, or a missing user or post) stops the sequence and leaves the table unchanged. |
| Scenarios.LikeDislikeWalkthrough | soc_network/services/post/service.py:69-102 | Starting from empty tables: a like succeeds and a repeated like is a duplicate. A dislike then replaces the like. The author liking their own post is refused. One row remains: the dislike. |

## Left out

- Transient connectivity faults are not modelled. `DbUnavailable` is raised on `OSError` (soc_network/repositories/action_repository.py:20-21 and the other handlers), and the model treats the store as always reachable.
- Identifiers are natural numbers. A UUID generated by the database is modelled as any id not yet in its table.
- The ordering of `list_by` results is not modelled. Its result is a set, because the query has no ORDER BY.
- Row timestamps (`dt_created`, `dt_updated`) and the user's `data` column are not modelled. No operation in the core reads them.
- Input validation by the schemas is not modelled. This covers the non-empty post body, lower-casing of the username, email syntax and password hashing. The repositories receive already-validated values.
- HTTP routing and the mapping of errors to status codes are not modelled. JWT handling and current-user resolution are not modelled either. The service receives the caller's user id.
- PostService.UpdatePost requires the post to exist, because `have_permissions_to_edit_post` dereferences the result of `post_repo.get` without a None check. In the source a missing post raises an attribute error before the NoPostError path at soc_network/services/post/service.py:36-39 is reached, and that path is never taken.
- PostService.HavePermissionsToEditPost, PostService.HavePermissionsToDeletePost and PostService.HavePermissionsToRatePost require the post to exist, for the same reason.
- PostService.RatePost states exactly what a duplicate does only when the one-reaction rule holds beforehand. If the table already holds both a like and a dislike from the same user, which the repository alone does not forbid, the scan may delete the opposite reaction before it meets the duplicate. The contract then says only that the deleted rows are among that user's reactions to the post.
- The post's author column is modelled as the migration declares it, `author_id` (soc_network/db/migrator/versions/c7eed7141dac_tables_create.py:38-39). The ORM class `Post` as shown (soc_network/db/models/post.py:16-21) declares it as `author` instead. With that class, `Post(body=..., author_id=...)` (soc_network/repositories/post_repository.py:16) would be rejected for an unknown keyword, and `post.author_id` (soc_network/services/post/service.py:140, 149, 158) would raise an attribute error. The model does not capture that mismatch.
- Concurrency between requests is not modelled. Each service call is one sequential operation.
