/** The account store (src/auth/repository/user.repository.ts): registration,
    login, the password and e-mail changes, confirmation, deletion and the
    lookups. Every change of password or e-mail and every confirmation moves the
    account's `count` on by one; the tokens that carry a count are checked
    against it. */
module UserRepository {
  import opened Results
  import Text
  import Sequences

  /** An account (src/auth/repository/user.entity.ts). `password` holds the
      bcrypt hash; `lastLogin`, `picture` and the timestamps are left out. */
  datatype User = User(id: string, username: string, email: string, password: string, confirmed: bool, count: int)

  /** bcrypt, as a pair of functions: `hash(p)` is the stored hash of `p` (its
      random salt is left out) and `check(p, stored)` is `bcrypt.compare`. */
  datatype Hasher = Hasher(hash: string -> string, check: (string, string) -> bool)

  /** A password always checks against its own hash. */
  ghost predicate Sound(h: Hasher) {
    forall p :: h.check(p, h.hash(p))
  }

  /** The copy of an account the repository hands back, with the hash blanked. */
  function Public(u: User): User {
    u.(password := "")
  }

  // ---------------------------------------------------------------------------
  // validateEmail: ^[a-zA-Z0-9._-]+@[a-zA-Z0-9.-]+\.[a-zA-Z]{2,4}$

  predicate LocalChar(c: char) {
    Text.IsAsciiLetter(c) || Text.IsDigit(c) || c in "._-"
  }

  predicate DomainChar(c: char) {
    Text.IsAsciiLetter(c) || Text.IsDigit(c) || c in ".-"
  }

  /** `[a-zA-Z0-9.-]+\.[a-zA-Z]{2,4}`: a domain, a dot and two to four letters. */
  predicate DomainPart(r: string) {
    exists dot :: 0 < dot < |r| && r[dot] == '.' && Text.AllIn(r[..dot], DomainChar)
                  && 2 <= |r| - dot - 1 <= 4 && Text.AllIn(r[dot + 1..], Text.IsAsciiLetter)
  }

  predicate ValidateEmail(s: string) {
    exists at :: 0 < at < |s| && s[at] == '@' && Text.AllIn(s[..at], LocalChar) && DomainPart(s[at + 1..])
  }

  /** A login input without `@` is never taken for an e-mail address. */
  lemma NoAtSignIsUsername(s: string)
    requires '@' !in s
    ensures !ValidateEmail(s)
  {
  }

  lemma EmailExample(s: string)
    requires s == "ana.p@mail.example.com"
    ensures ValidateEmail(s)
  {
    assert s[5] == '@';
    var r := s[6..];
    assert r == "mail.example.com";
    assert r[12] == '.';
    assert r[..12] == "mail.example";
    assert r[13..] == "com";
    assert s[..5] == "ana.p";
  }

  // ---------------------------------------------------------------------------
  // Lookups

  /** The position of the account with id `id`. */
  function IndexOf(users: seq<User>, id: string): (r: Option<nat>)
    ensures r.Some? ==> r.value < |users| && users[r.value].id == id
    ensures r.None? <==> forall k :: 0 <= k < |users| ==> users[k].id != id
  {
    Sequences.FindFirst(users, (u: User) => u.id == id)
  }

  /** `findUser`: the account with id `id`, `NotFound` when there is none, and,
      when a password is given, `BadRequest` unless it checks against the hash. */
  function FindUser(users: seq<User>, id: string, password: Option<string>, h: Hasher): (r: Result<nat>)
    ensures r.Success? ==> IndexOf(users, id) == Some(r.value)
    ensures r.Success? && password.Some? ==> h.check(password.value, users[r.value].password)
    ensures (r.Failure? && r.error == NotFound) <==> IndexOf(users, id).None?
    ensures (r.Failure? && r.error == BadRequest) <==>
              IndexOf(users, id).Some? && password.Some? && !h.check(password.value, users[IndexOf(users, id).value].password)
    ensures r.Failure? ==> r.error == NotFound || r.error == BadRequest
  {
    match IndexOf(users, id)
    case None => Failure(NotFound)
    case Some(i) =>
      if password.Some? && !h.check(password.value, users[i].password) then Failure(BadRequest)
      else Success(i)
  }

  /** `getUserById`. */
  function GetUserById(users: seq<User>, id: string): (r: Result<User>)
    ensures r.Success? ==> r.value in users && r.value.id == id
    ensures r.Failure? <==> forall u :: u in users ==> u.id != id
    ensures r.Failure? ==> r.error == NotFound
  {
    var i :- FindUser(users, id, None, Hasher((p: string) => p, (p: string, q: string) => true));
    Success(users[i])
  }

  /** `getUserByPayload`: a token payload names an account only while both its
      id and its count are the stored ones. */
  function PayloadIndex(users: seq<User>, id: string, count: int): (r: Result<nat>)
    ensures r.Success? ==> r.value < |users| && users[r.value].id == id && users[r.value].count == count
    ensures r.Failure? <==> forall k :: 0 <= k < |users| ==> !(users[k].id == id && users[k].count == count)
    ensures r.Failure? ==> r.error == Unauthorized
  {
    match Sequences.FindFirst(users, (u: User) => u.id == id && u.count == count)
    case None => Failure(Unauthorized)
    case Some(i) => Success(i)
  }

  function GetUserByPayload(users: seq<User>, id: string, count: int): (r: Result<User>)
    ensures r.Success? ==> r.value in users && r.value.id == id && r.value.count == count
    ensures r.Failure? <==> forall u :: u in users ==> !(u.id == id && u.count == count)
    ensures r.Failure? ==> r.error == Unauthorized
  {
    var i :- PayloadIndex(users, id, count);
    Success(users[i])
  }

  /** `getUserByEmail`: a malformed address is refused before any lookup. */
  function GetUserByEmail(users: seq<User>, email: string): (r: Result<User>)
    ensures (r.Failure? && r.error == BadRequest) <==> !ValidateEmail(email)
    ensures (r.Failure? && r.error == NotFound) <==> ValidateEmail(email) && forall u :: u in users ==> u.email != email
    ensures r.Failure? ==> r.error == BadRequest || r.error == NotFound
    ensures r.Success? ==> r.value in users && r.value.email == email
  {
    if !ValidateEmail(email) then Failure(BadRequest)
    else
      match Sequences.FindFirst(users, (u: User) => u.email == email)
      case None => Failure(NotFound)
      case Some(i) => Success(users[i])
  }

  // ---------------------------------------------------------------------------
  // Registration and login

  /** A row already holds the id, the username or the e-mail address. */
  predicate Taken(users: seq<User>, u: User) {
    exists k :: 0 <= k < |users| && (users[k].id == u.id || users[k].username == u.username || users[k].email == u.email)
  }

  /** `createUser`: differing passwords are a `BadRequest` before anything is
      stored; username and e-mail are stored lower-cased, with the hash of the
      password, unconfirmed and with count 0; a clash with the unique columns is
      a `Conflict`. `id` is the id the database generates. */
  function CreateUser(users: seq<User>, username: string, email: string, password1: string, password2: string, id: string, h: Hasher): (r: Result<(seq<User>, User)>)
    ensures (r.Failure? && r.error == BadRequest) <==> password1 != password2
    ensures (r.Failure? && r.error == Conflict) <==>
              password1 == password2 && Taken(users, User(id, Text.Lower(username), Text.Lower(email), "", false, 0))
    ensures r.Failure? ==> r.error == BadRequest || r.error == Conflict
    ensures r.Success? ==>
              var u := User(id, Text.Lower(username), Text.Lower(email), h.hash(password1), false, 0);
              r.value.0 == users + [u] && r.value.1 == Public(u)
  {
    if password1 != password2 then Failure(BadRequest)
    else
      var u := User(id, Text.Lower(username), Text.Lower(email), h.hash(password1), false, 0);
      if Taken(users, u) then Failure(Conflict) else Success((users + [u], Public(u)))
  }

  /** The account a login input designates: by e-mail when the input has the
      shape of an address, by username otherwise — compared as typed. */
  predicate Designates(u: User, input: string) {
    if ValidateEmail(input) then u.email == input else u.username == input
  }

  /** Account `k` is the first one a login input designates. */
  predicate FirstDesignated(users: seq<User>, input: string, k: int) {
    && 0 <= k < |users|
    && Designates(users[k], input)
    && forall j :: 0 <= j < k ==> !Designates(users[j], input)
  }

  /** At most one account is the first one designated. */
  lemma FirstDesignatedUnique(users: seq<User>, input: string, i: int)
    requires FirstDesignated(users, input, i)
    ensures forall k :: FirstDesignated(users, input, k) ==> k == i
  {
  }

  /** The first account a login input designates. */
  function DesignatedIndex(users: seq<User>, input: string): (r: Option<nat>)
    ensures r.Some? ==> FirstDesignated(users, input, r.value)
    ensures r.None? <==> forall k :: 0 <= k < |users| ==> !Designates(users[k], input)
  {
    Sequences.FindFirst(users, (u: User) => Designates(u, input))
  }

  /** `loginUser`: an unknown account and a wrong password give the same
      `Unauthorized`. The store is unchanged (`lastLogin` is left out). */
  function LoginUser(users: seq<User>, input: string, password: string, h: Hasher): (r: Result<User>)
    ensures r.Success? ==>
              exists k :: 0 <= k < |users| && Designates(users[k], input)
                && h.check(password, users[k].password) && r.value == Public(users[k])
    ensures r.Failure? ==> r.error == Unauthorized
    ensures (forall k :: 0 <= k < |users| ==> !Designates(users[k], input)) ==> r.Failure?
    ensures forall k :: FirstDesignated(users, input, k) ==>
              (r.Success? <==> h.check(password, users[k].password)) && (r.Success? ==> r.value == Public(users[k]))
  {
    match DesignatedIndex(users, input)
    case None => Failure(Unauthorized)
    case Some(i) =>
      FirstDesignatedUnique(users, input, i);
      if !h.check(password, users[i].password) then Failure(Unauthorized)
      else Success(Public(users[i]))
  }

  // ---------------------------------------------------------------------------
  // The count transitions

  /** `after` is `before` with the account at `i` replaced by `u`. */
  predicate OnlyChanged(before: seq<User>, after: seq<User>, i: nat, u: User) {
    && i < |before| && |after| == |before| && after[i] == u
    && forall k :: 0 <= k < |before| && k != i ==> after[k] == before[k]
  }

  /** `changePassword`: the old password is checked first (a wrong one is a
      `BadRequest`), then the two new ones must agree; the new hash is stored and
      the count moves on by one. */
  function ChangePassword(users: seq<User>, id: string, oldPassword: string, password1: string, password2: string, h: Hasher): (r: Result<(seq<User>, User)>)
    ensures (r.Failure? && r.error == NotFound) <==> IndexOf(users, id).None?
    ensures (r.Failure? && r.error == BadRequest) <==>
              IndexOf(users, id).Some?
              && (!h.check(oldPassword, users[IndexOf(users, id).value].password) || password1 != password2)
    ensures r.Failure? ==> r.error == NotFound || r.error == BadRequest
    ensures r.Success? ==>
              && IndexOf(users, id).Some?
              && var i := IndexOf(users, id).value;
              var u := users[i].(password := h.hash(password1), count := users[i].count + 1);
              && h.check(oldPassword, users[i].password)
              && OnlyChanged(users, r.value.0, i, u)
              && r.value.1 == Public(u)
  {
    var i :- FindUser(users, id, Some(oldPassword), h);
    if password1 != password2 then Failure(BadRequest)
    else
      var u := users[i].(password := h.hash(password1), count := users[i].count + 1);
      Success((users[i := u], Public(u)))
  }

  /** `resetPassword`: no old password is asked for. */
  function ResetPassword(users: seq<User>, id: string, password1: string, password2: string, h: Hasher): (r: Result<seq<User>>)
    ensures (r.Failure? && r.error == NotFound) <==> IndexOf(users, id).None?
    ensures (r.Failure? && r.error == BadRequest) <==> IndexOf(users, id).Some? && password1 != password2
    ensures r.Failure? ==> r.error == NotFound || r.error == BadRequest
    ensures r.Success? ==>
              && IndexOf(users, id).Some?
              && var i := IndexOf(users, id).value;
              OnlyChanged(users, r.value, i, users[i].(password := h.hash(password1), count := users[i].count + 1))
  {
    var i :- FindUser(users, id, None, h);
    if password1 != password2 then Failure(BadRequest)
    else Success(users[i := users[i].(password := h.hash(password1), count := users[i].count + 1)])
  }

  /** `changeEmail`: the password is checked, the address is stored as given
      (not lower-cased) and the count moves on; an address another account holds
      is a `Conflict`. The account comes back with its hash. */
  function ChangeEmail(users: seq<User>, id: string, email: string, password: string, h: Hasher): (r: Result<(seq<User>, User)>)
    ensures (r.Failure? && r.error == NotFound) <==> IndexOf(users, id).None?
    ensures (r.Failure? && r.error == BadRequest) <==>
              IndexOf(users, id).Some? && !h.check(password, users[IndexOf(users, id).value].password)
    ensures (r.Failure? && r.error == Conflict) <==>
              && IndexOf(users, id).Some? && h.check(password, users[IndexOf(users, id).value].password)
              && exists k :: 0 <= k < |users| && k != IndexOf(users, id).value && users[k].email == email
    ensures r.Failure? ==> r.error == NotFound || r.error == BadRequest || r.error == Conflict
    ensures r.Success? ==>
              && IndexOf(users, id).Some?
              && var i := IndexOf(users, id).value;
              var u := users[i].(email := email, count := users[i].count + 1);
              && OnlyChanged(users, r.value.0, i, u)
              && r.value.1 == u
  {
    var i :- FindUser(users, id, Some(password), h);
    var u := users[i].(email := email, count := users[i].count + 1);
    if exists k :: 0 <= k < |users| && k != i && users[k].email == email then Failure(Conflict)
    else Success((users[i := u], u))
  }

  /** `confirmAccount`: the payload must name the account with its current
      count; the account becomes confirmed and the count moves on. */
  function ConfirmAccount(users: seq<User>, id: string, count: int): (r: Result<(seq<User>, User)>)
    ensures r.Failure? <==> forall k :: 0 <= k < |users| ==> !(users[k].id == id && users[k].count == count)
    ensures r.Failure? ==> r.error == Unauthorized
    ensures r.Success? ==>
              && PayloadIndex(users, id, count).Success?
              && var i := PayloadIndex(users, id, count).value;
              var u := users[i].(confirmed := true, count := count + 1);
              && OnlyChanged(users, r.value.0, i, u)
              && r.value.1 == u
  {
    var i :- PayloadIndex(users, id, count);
    var u := users[i].(confirmed := true, count := users[i].count + 1);
    Success((users[i := u], u))
  }

  /** `deleteUser`: with the right password the account is removed. The source
      calls `softRemove`, but the entity declares no delete-date column, so
      the code as written cannot soft-remove; a delete is modelled as removal. */
  function DeleteUser(users: seq<User>, id: string, password: string, h: Hasher): (r: Result<seq<User>>)
    ensures (r.Failure? && r.error == NotFound) <==> IndexOf(users, id).None?
    ensures (r.Failure? && r.error == BadRequest) <==>
              IndexOf(users, id).Some? && !h.check(password, users[IndexOf(users, id).value].password)
    ensures r.Failure? ==> r.error == NotFound || r.error == BadRequest
    ensures r.Success? ==>
              && IndexOf(users, id).Some?
              && var i := IndexOf(users, id).value;
              && r.value == users[..i] + users[i + 1..]
              && h.check(password, users[i].password)
  {
    var i :- FindUser(users, id, Some(password), h);
    Success(users[..i] + users[i + 1..])
  }

  // ---------------------------------------------------------------------------
  // Invariants

  /** The unique columns: id, username and e-mail. */
  ghost predicate Unique(users: seq<User>) {
    forall i, j :: 0 <= i < j < |users| ==>
      users[i].id != users[j].id && users[i].username != users[j].username && users[i].email != users[j].email
  }

  /** Replacing one account by another with the same id and username and an
      address no other account holds keeps the columns unique. */
  lemma ReplaceKeepsUnique(users: seq<User>, after: seq<User>, i: nat, u: User)
    requires Unique(users) && OnlyChanged(users, after, i, u)
    requires u.id == users[i].id && u.username == users[i].username
    requires forall k :: 0 <= k < |users| && k != i ==> users[k].email != u.email
    ensures Unique(after)
  {
    forall a, b | 0 <= a < b < |after|
      ensures after[a].id != after[b].id && after[a].username != after[b].username && after[a].email != after[b].email
    {
      if a != i && b != i {
        assert after[a] == users[a] && after[b] == users[b];
      } else if a == i {
        assert after[b] == users[b];
      } else {
        assert after[a] == users[a];
      }
    }
  }

  /** Registration keeps the unique columns unique. */
  lemma CreateKeepsUnique(users: seq<User>, username: string, email: string, password1: string, password2: string, id: string, h: Hasher)
    requires Unique(users) && CreateUser(users, username, email, password1, password2, id, h).Success?
    ensures Unique(CreateUser(users, username, email, password1, password2, id, h).value.0)
  {
    var after := CreateUser(users, username, email, password1, password2, id, h).value.0;
    var u := after[|users|];
    assert !Taken(users, u);
    forall a, b | 0 <= a < b < |after|
      ensures after[a].id != after[b].id && after[a].username != after[b].username && after[a].email != after[b].email
    {
      assert after[a] == users[a];
      if b < |users| {
        assert after[b] == users[b];
      }
    }
  }

  /** The count transitions keep the unique columns unique: only a `Conflict`
      check stands between a changed address and a duplicate. */
  lemma TransitionsKeepUnique(users: seq<User>, h: Hasher, id: string, s1: string, s2: string, s3: string, count: int)
    requires Unique(users)
    ensures ChangePassword(users, id, s1, s2, s3, h).Success? ==> Unique(ChangePassword(users, id, s1, s2, s3, h).value.0)
    ensures ResetPassword(users, id, s1, s2, h).Success? ==> Unique(ResetPassword(users, id, s1, s2, h).value)
    ensures ChangeEmail(users, id, s1, s2, h).Success? ==> Unique(ChangeEmail(users, id, s1, s2, h).value.0)
    ensures ConfirmAccount(users, id, count).Success? ==> Unique(ConfirmAccount(users, id, count).value.0)
  {
    if ChangePassword(users, id, s1, s2, s3, h).Success? {
      var i := IndexOf(users, id).value;
      ReplaceKeepsUnique(users, ChangePassword(users, id, s1, s2, s3, h).value.0, i, ChangePassword(users, id, s1, s2, s3, h).value.0[i]);
    }
    if ResetPassword(users, id, s1, s2, h).Success? {
      var i := IndexOf(users, id).value;
      ReplaceKeepsUnique(users, ResetPassword(users, id, s1, s2, h).value, i, ResetPassword(users, id, s1, s2, h).value[i]);
    }
    if ChangeEmail(users, id, s1, s2, h).Success? {
      var i := IndexOf(users, id).value;
      ReplaceKeepsUnique(users, ChangeEmail(users, id, s1, s2, h).value.0, i, ChangeEmail(users, id, s1, s2, h).value.0[i]);
    }
    if ConfirmAccount(users, id, count).Success? {
      var i := PayloadIndex(users, id, count).value;
      ReplaceKeepsUnique(users, ConfirmAccount(users, id, count).value.0, i, ConfirmAccount(users, id, count).value.0[i]);
    }
  }

  /** Deletion keeps the unique columns unique. */
  lemma DeleteKeepsUnique(users: seq<User>, id: string, password: string, h: Hasher)
    requires Unique(users) && DeleteUser(users, id, password, h).Success?
    ensures Unique(DeleteUser(users, id, password, h).value)
  {
    var i := IndexOf(users, id).value;
    var after := DeleteUser(users, id, password, h).value;
    forall a, b | 0 <= a < b < |after|
      ensures after[a].id != after[b].id && after[a].username != after[b].username && after[a].email != after[b].email
    {
      var a', b' := if a < i then a else a + 1, if b < i then b else b + 1;
      assert after[a] == users[a'] && after[b] == users[b'];
    }
  }

  /** With unique ids, the account at `IndexOf` is the only one with that id. */
  lemma UniqueIndex(users: seq<User>, id: string, k: nat)
    requires Unique(users) && k < |users| && users[k].id == id
    ensures IndexOf(users, id) == Some(k)
  {
  }

  /** With a sound hasher, the password a change or a reset stores is the one
      the password gate then accepts. */
  lemma NewPasswordChecks(users: seq<User>, id: string, oldPassword: string, password1: string, password2: string, h: Hasher)
    requires Sound(h) && Unique(users)
    ensures var r := ChangePassword(users, id, oldPassword, password1, password2, h);
            r.Success? ==> FindUser(r.value.0, id, Some(password1), h).Success?
    ensures var r := ResetPassword(users, id, password1, password2, h);
            r.Success? ==> FindUser(r.value, id, Some(password1), h).Success?
  {
    TransitionsKeepUnique(users, h, id, oldPassword, password1, password2, 0);
    TransitionsKeepUnique(users, h, id, password1, password2, password2, 0);
    var changed := ChangePassword(users, id, oldPassword, password1, password2, h);
    if changed.Success? {
      var i := IndexOf(users, id).value;
      UniqueIndex(changed.value.0, id, i);
      assert h.check(password1, h.hash(password1));
    }
    var reset := ResetPassword(users, id, password1, password2, h);
    if reset.Success? {
      var i := IndexOf(users, id).value;
      UniqueIndex(reset.value, id, i);
      assert h.check(password1, h.hash(password1));
    }
  }
}
