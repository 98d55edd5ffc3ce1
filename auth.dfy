/** Sign-in state kept in the browser's storage (src/utils/authUtils.ts).
    `localStorage` and `sessionStorage` are the two maps of a
    BrowserStorage object. */
module Auth {

  import opened Optional

  const AuthToken := "auth_token"

  /** The keys `signOutUser` removes from local storage. */
  const AuthKeys := {AuthToken, "user_data", "auth_state", "user_session"}

  class BrowserStorage {
    var local: map<string, string>
    var session: map<string, string>

    constructor (local0: map<string, string>, session0: map<string, string>)
      ensures local == local0 && session == session0
    {
      local := local0;
      session := session0;
    }

    /** `localStorage.getItem(key)`; None is null. */
    method GetItem(key: string) returns (value: Option<string>)
      ensures value.Some? <==> key in local
      ensures value.Some? ==> value.value == local[key]
    {
      if key in local {
        value := Some(local[key]);
      } else {
        value := None;
      }
    }

    /** `localStorage.removeItem(key)`. */
    method RemoveItem(key: string)
      modifies this
      ensures local == old(local) - {key}
      ensures session == old(session)
    {
      local := local - {key};
    }

    /** `sessionStorage.clear()`. */
    method ClearSession()
      modifies this
      ensures session == map[]
      ensures local == old(local)
    {
      session := map[];
    }
  }

  /** `isUserAuthenticated`: a token is stored. */
  method IsUserAuthenticated(store: BrowserStorage) returns (authenticated: bool)
    ensures authenticated <==> AuthToken in store.local
  {
    var token := store.GetItem(AuthToken);
    authenticated := token.Some?;
  }

  /** Local storage after sign-out: every other key with its value. */
  function SignedOut(local: map<string, string>): (r: map<string, string>)
    ensures forall k :: k in r <==> k in local && k !in AuthKeys
    ensures forall k :: k in r ==> r[k] == local[k]
  {
    local - AuthKeys
  }

  /** Signing out twice leaves what signing out once leaves, and nobody
      is signed in afterwards. */
  lemma SignedOutIdempotent(local: map<string, string>)
    ensures SignedOut(SignedOut(local)) == SignedOut(local)
    ensures AuthToken !in SignedOut(local)
  {
  }

  /** `signOutUser`: removes the four keys one by one, then empties the
      session storage. */
  method SignOutUser(store: BrowserStorage)
    modifies store
    ensures store.local == SignedOut(old(store.local))
    ensures store.session == map[]
    ensures AuthToken !in store.local
  {
    ghost var before := store.local;
    store.RemoveItem(AuthToken);
    store.RemoveItem("user_data");
    store.RemoveItem("auth_state");
    store.RemoveItem("user_session");
    store.ClearSession();
    RemovingEachKey(before);
  }

  /** Removing the four keys one at a time removes the set of them. */
  lemma RemovingEachKey(local: map<string, string>)
    ensures local - {AuthToken} - {"user_data"} - {"auth_state"} - {"user_session"} == local - AuthKeys
  {
    var r := local - {AuthToken} - {"user_data"} - {"auth_state"} - {"user_session"};
    assert forall k :: k in r <==> k in local && k !in AuthKeys;
  }

  /** Signing out and then asking whether a user is signed in says no. */
  method SignOutThenCheck(store: BrowserStorage) returns (authenticated: bool)
    modifies store
    ensures !authenticated
  {
    SignOutUser(store);
    authenticated := IsUserAuthenticated(store);
  }
}
