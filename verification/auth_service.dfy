/** The authentication flows (src/auth/auth.service.ts) over the account store:
    which token each flow mints, which it accepts, and how the account's `count`
    decides which tokens are still good. */
module AuthService {
  import opened Results
  import UserRepository

  type User = UserRepository.User
  type Hasher = UserRepository.Hasher

  /** The three kinds of signed token, each signed and verified with its own
      secret. */
  datatype TokenKind = Refresh | Confirmation | PasswordReset

  /** A JWT by its contents: an access token carries the id only; the signed
      tokens carry the id and the count they were minted from. Signatures and
      expiry are left out, so a token is its payload and its kind. */
  datatype Token = AccessToken(id: string) | SignedToken(kind: TokenKind, id: string, count: int)

  datatype Payload = Payload(id: string, count: int)

  /** `verifyJwtToken`: a token verifies only under the secret it was signed
      with; anything else is `Unauthorized`. */
  function Verify(token: Token, kind: TokenKind): (r: Result<Payload>)
    ensures r.Success? <==> token.SignedToken? && token.kind == kind
    ensures r.Success? ==> r.value == Payload(token.id, token.count)
    ensures r.Failure? ==> r.error == Unauthorized
  {
    if token.SignedToken? && token.kind == kind then Success(Payload(token.id, token.count))
    else Failure(Unauthorized)
  }

  /** `AuthType`: the account and its two fresh tokens. */
  datatype Auth = Auth(user: User, accessToken: Token, refreshToken: Token)

  /** `generateAuthTokens`: an access token with the id and a refresh token with
      the id and the count. */
  function AuthFor(u: User): (a: Auth)
    ensures a.user == u && a.accessToken == AccessToken(u.id)
    ensures Verify(a.refreshToken, Refresh) == Success(Payload(u.id, u.count))
  {
    Auth(u, AccessToken(u.id), SignedToken(Refresh, u.id, u.count))
  }

  /** `registerUser`: creates the account and mints the confirmation token that
      is e-mailed to it, from the new account's count (0). */
  function RegisterUser(users: seq<User>, username: string, email: string, password1: string, password2: string, id: string, h: Hasher): (r: Result<(seq<User>, Token)>)
    ensures r.Failure? <==> UserRepository.CreateUser(users, username, email, password1, password2, id, h).Failure?
    ensures r.Failure? ==> r.error == UserRepository.CreateUser(users, username, email, password1, password2, id, h).error
    ensures r.Success? ==>
              && r.value.0 == UserRepository.CreateUser(users, username, email, password1, password2, id, h).value.0
              && r.value.1 == SignedToken(Confirmation, id, 0)
  {
    var (after, u) :- UserRepository.CreateUser(users, username, email, password1, password2, id, h);
    Success((after, SignedToken(Confirmation, u.id, u.count)))
  }

  /** `loginUser`: an account that has not been confirmed is refused with
      `Unauthorized` and gets no tokens (a new confirmation e-mail is sent). */
  function LoginUser(users: seq<User>, input: string, password: string, h: Hasher): (r: Result<Auth>)
    ensures r.Success? ==>
              && UserRepository.LoginUser(users, input, password, h).Success?
              && var u := UserRepository.LoginUser(users, input, password, h).value;
              u.confirmed && r == Success(AuthFor(u))
    ensures r.Failure? <==>
              UserRepository.LoginUser(users, input, password, h).Failure?
              || !UserRepository.LoginUser(users, input, password, h).value.confirmed
    ensures r.Failure? ==> r.error == Unauthorized
  {
    var u :- UserRepository.LoginUser(users, input, password, h);
    if !u.confirmed then Failure(Unauthorized) else Success(AuthFor(u))
  }

  /** `refreshAccessToken`: a refresh token whose id and count are the account's
      current ones buys a new access token. */
  function RefreshAccessToken(users: seq<User>, token: Token): (r: Result<(Token, User)>)
    ensures r.Success? <==>
              && token.SignedToken? && token.kind == Refresh
              && exists k :: 0 <= k < |users| && users[k].id == token.id && users[k].count == token.count
    ensures r.Success? ==> r.value.0 == AccessToken(token.id) && r.value.1 in users && r.value.1.id == token.id
    ensures r.Failure? ==> r.error == Unauthorized
  {
    var payload :- Verify(token, Refresh);
    var u :- UserRepository.GetUserByPayload(users, payload.id, payload.count);
    Success((AccessToken(u.id), u))
  }

  /** `confirmAccount`: a confirmation token with the current count confirms the
      account, moves its count on, and the new tokens carry the new count. */
  function ConfirmAccount(users: seq<User>, token: Token): (r: Result<(seq<User>, Auth)>)
    ensures r.Success? <==>
              && token.SignedToken? && token.kind == Confirmation
              && exists k :: 0 <= k < |users| && users[k].id == token.id && users[k].count == token.count
    ensures r.Success? ==>
              && UserRepository.ConfirmAccount(users, token.id, token.count).Success?
              && var (after, u) := UserRepository.ConfirmAccount(users, token.id, token.count).value;
              && u.confirmed && u.count == token.count + 1
              && r.value == (after, AuthFor(u))
    ensures r.Failure? ==> r.error == Unauthorized
  {
    var payload :- Verify(token, Confirmation);
    var (after, u) :- UserRepository.ConfirmAccount(users, payload.id, payload.count);
    Success((after, AuthFor(u)))
  }

  /** `sendResetEmail`: mints the reset token for the account with the address. */
  function SendResetEmail(users: seq<User>, email: string): (r: Result<Token>)
    ensures r.Success? ==>
              exists u :: u in users && u.email == email && r.value == SignedToken(PasswordReset, u.id, u.count)
    ensures r.Failure? <==> UserRepository.GetUserByEmail(users, email).Failure?
    ensures r.Failure? ==> r.error == UserRepository.GetUserByEmail(users, email).error
  {
    var u :- UserRepository.GetUserByEmail(users, email);
    Success(SignedToken(PasswordReset, u.id, u.count))
  }

  /** `resetPassword`: the reset token is verified, then only its id is used. */
  function ResetPassword(users: seq<User>, token: Token, password1: string, password2: string, h: Hasher): (r: Result<seq<User>>)
    ensures (r.Failure? && r.error == Unauthorized) <==> !(token.SignedToken? && token.kind == PasswordReset)
    ensures token.SignedToken? && token.kind == PasswordReset ==>
              r == UserRepository.ResetPassword(users, token.id, password1, password2, h)
  {
    var payload :- Verify(token, PasswordReset);
    UserRepository.ResetPassword(users, payload.id, password1, password2, h)
  }

  /** `deleteAccount`: with the right password the account leaves the store
      and every other account stays. */
  function DeleteAccount(users: seq<User>, id: string, password: string, h: Hasher): (r: Result<seq<User>>)
    ensures r.Failure? <==> UserRepository.FindUser(users, id, Some(password), h).Failure?
    ensures r.Failure? ==> r.error == UserRepository.FindUser(users, id, Some(password), h).error
    ensures r.Success? ==>
              var i := UserRepository.IndexOf(users, id).value;
              multiset(r.value) + multiset{users[i]} == multiset(users) && users[i].id == id
  {
    var after :- UserRepository.DeleteUser(users, id, password, h);
    var i := UserRepository.IndexOf(users, id).value;
    assert users == users[..i] + [users[i]] + users[i + 1..];
    Success(after)
  }

  /** `changePassword`: the new tokens carry the moved-on count. */
  function ChangePassword(users: seq<User>, id: string, oldPassword: string, password1: string, password2: string, h: Hasher): (r: Result<(seq<User>, Auth)>)
    ensures r.Failure? <==> UserRepository.ChangePassword(users, id, oldPassword, password1, password2, h).Failure?
    ensures r.Failure? ==> r.error == UserRepository.ChangePassword(users, id, oldPassword, password1, password2, h).error
    ensures r.Success? ==>
              && var (after, u) := UserRepository.ChangePassword(users, id, oldPassword, password1, password2, h).value;
              && r.value == (after, AuthFor(u))
              && u.count == users[UserRepository.IndexOf(users, id).value].count + 1
  {
    var (after, u) :- UserRepository.ChangePassword(users, id, oldPassword, password1, password2, h);
    Success((after, AuthFor(u)))
  }

  /** `changeEmail`: the new tokens carry the moved-on count. */
  function ChangeEmail(users: seq<User>, id: string, email: string, password: string, h: Hasher): (r: Result<(seq<User>, Auth)>)
    ensures r.Failure? <==> UserRepository.ChangeEmail(users, id, email, password, h).Failure?
    ensures r.Failure? ==> r.error == UserRepository.ChangeEmail(users, id, email, password, h).error
    ensures r.Success? ==>
              && var (after, u) := UserRepository.ChangeEmail(users, id, email, password, h).value;
              && r.value == (after, AuthFor(u))
              && u.count == users[UserRepository.IndexOf(users, id).value].count + 1
  {
    var (after, u) :- UserRepository.ChangeEmail(users, id, email, password, h);
    Success((after, AuthFor(u)))
  }

  /** `getUserById`. */
  function GetUserById(users: seq<User>, id: string): (r: Result<User>)
    ensures r.Success? ==> r.value in users && r.value.id == id
    ensures r.Failure? <==> forall u :: u in users ==> u.id != id
    ensures r.Failure? ==> r.error == NotFound
  {
    UserRepository.GetUserById(users, id)
  }

  // ---------------------------------------------------------------------------
  // What the count revokes, and what it does not

  /** When the account at `i` has moved its count on and no other account
      changed, a refresh token minted from the old count is refused. */
  lemma BumpRevokesRefresh(users: seq<User>, after: seq<User>, i: nat, u: User)
    requires UserRepository.Unique(users) && UserRepository.OnlyChanged(users, after, i, u)
    requires u.id == users[i].id && u.count == users[i].count + 1
    ensures RefreshAccessToken(after, SignedToken(Refresh, users[i].id, users[i].count)) == Failure(Unauthorized)
  {
    forall k | 0 <= k < |after|
      ensures !(after[k].id == users[i].id && after[k].count == users[i].count)
    {
      if k != i {
        assert after[k] == users[k];
      }
    }
  }

  /** A password change revokes the refresh tokens minted before it, and the
      refresh token it hands out is accepted. */
  lemma ChangePasswordRevokes(users: seq<User>, id: string, oldPassword: string, password1: string, password2: string, h: Hasher, token: Token)
    requires UserRepository.Unique(users)
    requires ChangePassword(users, id, oldPassword, password1, password2, h).Success?
    requires token == SignedToken(Refresh, id, users[UserRepository.IndexOf(users, id).value].count)
    ensures RefreshAccessToken(ChangePassword(users, id, oldPassword, password1, password2, h).value.0, token) == Failure(Unauthorized)
    ensures var (after, auth) := ChangePassword(users, id, oldPassword, password1, password2, h).value;
            RefreshAccessToken(after, auth.refreshToken).Success?
  {
    var i := UserRepository.IndexOf(users, id).value;
    var (after, auth) := ChangePassword(users, id, oldPassword, password1, password2, h).value;
    BumpRevokesRefresh(users, after, i, after[i]);
    assert after[i].id == auth.refreshToken.id && after[i].count == auth.refreshToken.count;
  }

  /** A password reset revokes the refresh tokens minted before it. */
  lemma ResetPasswordRevokes(users: seq<User>, reset: Token, password1: string, password2: string, h: Hasher, token: Token)
    requires UserRepository.Unique(users)
    requires ResetPassword(users, reset, password1, password2, h).Success?
    requires token == SignedToken(Refresh, reset.id, users[UserRepository.IndexOf(users, reset.id).value].count)
    ensures RefreshAccessToken(ResetPassword(users, reset, password1, password2, h).value, token) == Failure(Unauthorized)
  {
    var i := UserRepository.IndexOf(users, reset.id).value;
    var after := ResetPassword(users, reset, password1, password2, h).value;
    BumpRevokesRefresh(users, after, i, after[i]);
  }

  /** An e-mail change revokes the refresh tokens minted before it, and the
      refresh token it hands out is accepted. */
  lemma ChangeEmailRevokes(users: seq<User>, id: string, email: string, password: string, h: Hasher, token: Token)
    requires UserRepository.Unique(users)
    requires ChangeEmail(users, id, email, password, h).Success?
    requires token == SignedToken(Refresh, id, users[UserRepository.IndexOf(users, id).value].count)
    ensures RefreshAccessToken(ChangeEmail(users, id, email, password, h).value.0, token) == Failure(Unauthorized)
    ensures var (after, auth) := ChangeEmail(users, id, email, password, h).value;
            RefreshAccessToken(after, auth.refreshToken).Success?
  {
    var i := UserRepository.IndexOf(users, id).value;
    var (after, auth) := ChangeEmail(users, id, email, password, h).value;
    BumpRevokesRefresh(users, after, i, after[i]);
    assert after[i].id == auth.refreshToken.id && after[i].count == auth.refreshToken.count;
  }

  /** A confirmation token works once: after it has confirmed the account, the
      same token is refused, as is a refresh token from the old count; the
      refresh token the confirmation hands out is accepted. */
  lemma ConfirmationSingleUse(users: seq<User>, token: Token)
    requires UserRepository.Unique(users)
    requires ConfirmAccount(users, token).Success?
    ensures ConfirmAccount(ConfirmAccount(users, token).value.0, token) == Failure(Unauthorized)
    ensures RefreshAccessToken(ConfirmAccount(users, token).value.0, SignedToken(Refresh, token.id, token.count)) == Failure(Unauthorized)
    ensures var (after, auth) := ConfirmAccount(users, token).value;
            RefreshAccessToken(after, auth.refreshToken).Success?
  {
    var i := UserRepository.PayloadIndex(users, token.id, token.count).value;
    var (after, auth) := ConfirmAccount(users, token).value;
    BumpRevokesRefresh(users, after, i, after[i]);
    assert !(exists k :: 0 <= k < |after| && after[k].id == token.id && after[k].count == token.count);
    assert after[i].id == auth.refreshToken.id && after[i].count == auth.refreshToken.count;
  }

  /** A reset token is not revoked by the reset it performs: it can be used
      again, whatever count it was minted from. */
  lemma ResetTokenReusable(users: seq<User>, token: Token, password1: string, password2: string, again1: string, again2: string, h: Hasher)
    requires ResetPassword(users, token, password1, password2, h).Success?
    requires again1 == again2
    ensures ResetPassword(ResetPassword(users, token, password1, password2, h).value, token, again1, again2, h).Success?
  {
    var i := UserRepository.IndexOf(users, token.id).value;
    var after := ResetPassword(users, token, password1, password2, h).value;
    assert after[i].id == token.id;
  }

  /** The count a reset token carries plays no part. */
  lemma ResetIgnoresCount(users: seq<User>, id: string, c1: int, c2: int, password1: string, password2: string, h: Hasher)
    ensures ResetPassword(users, SignedToken(PasswordReset, id, c1), password1, password2, h)
         == ResetPassword(users, SignedToken(PasswordReset, id, c2), password1, password2, h)
  {
  }

  /** Access tokens are never checked against the count: a count bump leaves
      them untouched, and no signed-token flow accepts one. */
  lemma AccessTokensNotRevocable(users: seq<User>, id: string, h: Hasher, p1: string, p2: string)
    ensures RefreshAccessToken(users, AccessToken(id)) == Failure(Unauthorized)
    ensures ConfirmAccount(users, AccessToken(id)) == Failure(Unauthorized)
    ensures ResetPassword(users, AccessToken(id), p1, p2, h) == Failure(Unauthorized)
  {
  }

  /** A token of one kind is refused by the flows of the other kinds. */
  lemma KindsDoNotMix(users: seq<User>, id: string, count: int, h: Hasher, p1: string, p2: string)
    ensures RefreshAccessToken(users, SignedToken(Confirmation, id, count)) == Failure(Unauthorized)
    ensures RefreshAccessToken(users, SignedToken(PasswordReset, id, count)) == Failure(Unauthorized)
    ensures ConfirmAccount(users, SignedToken(Refresh, id, count)) == Failure(Unauthorized)
    ensures ConfirmAccount(users, SignedToken(PasswordReset, id, count)) == Failure(Unauthorized)
    ensures ResetPassword(users, SignedToken(Refresh, id, count), p1, p2, h) == Failure(Unauthorized)
    ensures ResetPassword(users, SignedToken(Confirmation, id, count), p1, p2, h) == Failure(Unauthorized)
  {
  }

  /** Logging in by username: an account that has not been confirmed cannot
      log in, even with the right password; a confirmed one with the right
      password gets a refresh token that is accepted. */
  lemma LoginNeedsConfirmation(users: seq<User>, k: nat, password: string, h: Hasher)
    requires UserRepository.Unique(users)
    requires k < |users| && h.check(password, users[k].password)
    requires !UserRepository.ValidateEmail(users[k].username)
    ensures !users[k].confirmed ==> LoginUser(users, users[k].username, password, h) == Failure(Unauthorized)
    ensures users[k].confirmed ==>
              LoginUser(users, users[k].username, password, h).Success?
              && RefreshAccessToken(users, LoginUser(users, users[k].username, password, h).value.refreshToken).Success?
  {
    var input := users[k].username;
    assert UserRepository.Designates(users[k], input);
    assert forall j :: 0 <= j < k ==> !UserRepository.Designates(users[j], input);
  }
}
