/** Users of the auction system and the lookup of a user by name. */
module Users {

  /** A registered user. Users are compared by reference: registering the same
      name twice yields two distinct users with equal usernames. */
  class User {
    const username: string

    constructor (username: string)
      ensures this.username == username
    {
      this.username := username;
    }
  }

  /** The position of the first user in `users` whose username is `name`,
      or `|users|` when no user has that name. */
  function FirstMatch(users: seq<User>, name: string): (k: nat)
    ensures k <= |users|
    ensures k < |users| ==> users[k].username == name
    ensures forall j :: 0 <= j < k ==> users[j].username != name
  {
    if users == [] then 0
    else if users[0].username == name then 0
    else 1 + FirstMatch(users[1..], name)
  }

  /** Appending a user never changes an existing match: the first user
      registered under a name keeps winning the lookup. A name that had no
      match before is found at the new user exactly when it carries that name. */
  lemma {:induction false} FirstMatchAfterAppend(users: seq<User>, u: User, name: string)
    ensures FirstMatch(users + [u], name) ==
              if FirstMatch(users, name) < |users| then FirstMatch(users, name)
              else if u.username == name then |users|
              else |users| + 1
  {
    var k := FirstMatch(users, name);
    if k < |users| {
      assert (users + [u])[k] == users[k];
    } else if u.username == name {
      assert (users + [u])[|users|] == u;
    }
  }
}
