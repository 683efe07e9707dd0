/** The persisted credential store (`UserStore`): a token, empty when signed
    out, and the signed-in user's profile. The underlying store's `set` merges
    a partial state into the current one; persistence to durable storage is a
    side effect outside this model. */
module UserStore {
  import opened Common

  datatype UserInfo = UserInfo(id: string, phone: string, name: string, role: string, status: string)

  datatype State = State(userInfo: Option<UserInfo>, token: string)

  /** The argument of the store's `set`: a field that is absent is left alone. */
  datatype Patch = Patch(userInfo: Option<Option<UserInfo>>, token: Option<string>)

  /** The store's `set`: a shallow merge of the patch into the state. */
  function Merge(s: State, p: Patch): (r: State)
    ensures p.token.None? ==> r.token == s.token
    ensures p.token.Some? ==> r.token == p.token.value
    ensures p.userInfo.None? ==> r.userInfo == s.userInfo
    ensures p.userInfo.Some? ==> r.userInfo == p.userInfo.value
  {
    State(if p.userInfo.Some? then p.userInfo.value else s.userInfo,
          if p.token.Some? then p.token.value else s.token)
  }

  /** The state before anything was stored: no token, no user. */
  const Initial: State := State(None, "")

  function SetToken(s: State, token: string): (r: State)
    ensures r.token == token
    ensures r.userInfo == s.userInfo
  {
    Merge(s, Patch(None, Some(token)))
  }

  /** Storing back the token just read changes nothing. */
  function GetToken(s: State): (r: string)
    ensures SetToken(s, r) == s
  {
    s.token
  }

  function SetUserInfo(s: State, info: UserInfo): (r: State)
    ensures r.userInfo == Some(info)
    ensures r.token == s.token
  {
    Merge(s, Patch(Some(Some(info)), None))
  }

  /** Storing back the profile just read changes nothing. */
  function GetUserInfo(s: State): (r: Option<UserInfo>)
    ensures Merge(s, Patch(Some(r), None)) == s
  {
    s.userInfo
  }

  /** Stores the credentials of a successful sign-in; an absent profile is
      stored as null. */
  function Login(s: State, token: string, info: Option<UserInfo>): (r: State)
    ensures r.token == token
    ensures r.userInfo == info
  {
    Merge(s, Patch(Some(info), Some(token)))
  }

  /** Forgets both the token and the profile. */
  function Logout(s: State): (r: State)
    ensures r == Initial
  {
    Merge(s, Patch(Some(None), Some("")))
  }

  /** Signed in exactly when clearing the token would change the store. */
  function IsLoggedIn(s: State): (r: bool)
    ensures r <==> ClearToken(s) != s
  {
    s.token != ""
  }

  /** Forgets the token only (the 401 path); the profile is kept. */
  function ClearToken(s: State): (r: State)
    ensures r.token == ""
    ensures r.userInfo == s.userInfo
  {
    Merge(s, Patch(None, Some("")))
  }

  lemma {:induction false} InitialIsLoggedOut()
    ensures !IsLoggedIn(Initial) && GetUserInfo(Initial).None?
  { }

  /** What `setToken` stores, `getToken` returns. */
  lemma {:induction false} SetTokenThenGet(s: State, token: string)
    ensures GetToken(SetToken(s, token)) == token
    ensures GetUserInfo(SetToken(s, token)) == GetUserInfo(s)
  { }

  /** Signing in with a non-empty token signs in; signing out twice is
      signing out once. */
  lemma {:induction false} LoginLogout(s: State, token: string, info: Option<UserInfo>)
    ensures IsLoggedIn(Login(s, token, info)) <==> token != ""
    ensures GetUserInfo(Login(s, token, info)) == info
    ensures Logout(Logout(s)) == Logout(s)
    ensures !IsLoggedIn(Logout(s))
  { }

  /** Clearing the token is idempotent and ends the session but keeps the
      profile, which is the only difference from logging out. */
  lemma {:induction false} ClearTokenProperties(s: State)
    ensures ClearToken(ClearToken(s)) == ClearToken(s)
    ensures !IsLoggedIn(ClearToken(s))
    ensures GetUserInfo(ClearToken(s)) == GetUserInfo(s)
    ensures ClearToken(s) == Logout(s) <==> s.userInfo.None?
  { }
}
