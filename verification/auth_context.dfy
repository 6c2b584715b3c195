/**
 The client's authentication state: the token held in memory and its copy in
 the browser's local storage. The mirror effect runs after every change of the
 token, so the model applies it as part of each transition.
 */
module AuthContext {
  import opened Common

  datatype Auth = Auth(token: Option<string>, stored: Option<string>)

  /** The storage after the mirror effect: the token is written when it is a
      non-empty string and the key is removed otherwise. */
  function Mirror(token: Option<string>): (stored: Option<string>)
    ensures Truthy(token) ==> stored == token
    ensures !Truthy(token) ==> stored.None?
  {
    if Truthy(token) then token else None
  }

  /** What the storage holds in every settled state. */
  predicate Mirrored(a: Auth) {
    a.stored == Mirror(a.token)
  }

  /** The provider as mounted: the token is read from storage, then mirrored
      back (an empty stored string is therefore removed). */
  function Mount(stored: Option<string>): (a: Auth)
    ensures a.token == stored
    ensures Mirrored(a)
    ensures Truthy(stored) ==> a.stored == stored
  {
    Auth(stored, Mirror(stored))
  }

  /** `isAuthenticated`: the token is a non-empty string. */
  predicate IsAuthenticated(a: Auth) {
    Truthy(a.token)
  }

  /** `login(t)`: the token becomes `t`, whatever it was. */
  function Login(a: Auth, t: Option<string>): (r: Auth)
    ensures r.token == t
    ensures Mirrored(r)
    ensures IsAuthenticated(r) <==> t.Some? && t.value != ""
  {
    Auth(t, Mirror(t))
  }

  /** `logout()`: the token becomes null and the stored copy is removed. */
  function Logout(a: Auth): (r: Auth)
    ensures r.token.None? && r.stored.None?
    ensures !IsAuthenticated(r)
  {
    Auth(None, Mirror(None))
  }

  datatype Action = DoLogin(t: Option<string>) | DoLogout

  function Step(a: Auth, act: Action): Auth {
    match act
    case DoLogin(t) => Login(a, t)
    case DoLogout => Logout(a)
  }

  function Replay(a: Auth, acts: seq<Action>): Auth
    decreases |acts|
  {
    if acts == [] then a else Replay(Step(a, acts[0]), acts[1..])
  }

  /** Storage mirrors the token after any sequence of logins and logouts. */
  lemma {:induction false} ReplayMirrored(a: Auth, acts: seq<Action>)
    requires Mirrored(a)
    ensures Mirrored(Replay(a, acts))
    decreases |acts|
  {
    if acts != [] {
      ReplayMirrored(Step(a, acts[0]), acts[1..]);
    }
  }

  /** A reload (a fresh mount from what storage holds) restores exactly the
      authentication status the page had. */
  lemma ReloadKeepsStatus(a: Auth)
    requires Mirrored(a)
    ensures IsAuthenticated(Mount(a.stored)) <==> IsAuthenticated(a)
    ensures IsAuthenticated(a) ==> Mount(a.stored).token == a.token
  {
  }

  /** After any session the last action decides the status: a final logout
      leaves the user out, a final login with a non-empty token leaves them in. */
  lemma {:induction false} LastActionDecides(a: Auth, acts: seq<Action>)
    requires acts != []
    ensures acts[|acts| - 1].DoLogout? ==> !IsAuthenticated(Replay(a, acts))
    ensures acts[|acts| - 1].DoLogin? ==>
              Replay(a, acts).token == acts[|acts| - 1].t
    decreases |acts|
  {
    if |acts| > 1 {
      LastActionDecides(Step(a, acts[0]), acts[1..]);
      assert acts[1..][|acts[1..]| - 1] == acts[|acts| - 1];
    }
  }
}
