/**
 * The mock `AuthService` of src/app/auth.service.ts: an authenticated flag
 * mirrored in the browser's localStorage under the key "isAuthenticated".
 * Navigation after logout is not part of this model.
 */
module MockAuth {

  const StorageKey := "isAuthenticated"

  /** What `checkAuthStatus` reads: the stored value is exactly "true". */
  predicate StoredFlag(storage: map<string, string>) {
    StorageKey in storage && storage[StorageKey] == "true"
  }

  class AuthService {
    /** The value of `isAuthenticatedSignal`. */
    var authenticated: bool
    /** The browser's localStorage. */
    var storage: map<string, string>

    /** The flag agrees with what is stored. */
    ghost predicate Valid()
      reads this
    {
      authenticated == StoredFlag(storage)
    }

    /** The constructor runs `checkAuthStatus` on the storage it finds. */
    constructor (storage: map<string, string>)
      ensures this.storage == storage
      ensures authenticated <==> StoredFlag(storage)
      ensures Valid()
    {
      this.storage := storage;
      authenticated := false;
      new;
      CheckAuthStatus();
    }

    /** The `isAuthenticated` getter: while the flag agrees with storage, it reports the stored value. */
    function IsAuthenticated(): (r: bool)
      reads this
      ensures Valid() ==> (r <==> StoredFlag(storage))
    {
      authenticated
    }

    /** `checkAuthStatus`: authenticated iff the stored value is "true". */
    method CheckAuthStatus()
      modifies this
      ensures storage == old(storage)
      ensures authenticated <==> StoredFlag(storage)
      ensures Valid()
    {
      authenticated := StorageKey in storage && storage[StorageKey] == "true";
    }

    /**
     * `login`: only admin/admin succeeds, and then the flag and the stored
     * value are set; a failed login changes neither.
     */
    method Login(username: string, password: string) returns (ok: bool)
      modifies this
      ensures ok <==> username == "admin" && password == "admin"
      ensures ok ==> authenticated && storage == old(storage)[StorageKey := "true"]
      ensures !ok ==> authenticated == old(authenticated) && storage == old(storage)
      ensures old(Valid()) ==> Valid()
    {
      if username == "admin" && password == "admin" {
        authenticated := true;
        storage := storage[StorageKey := "true"];
        return true;
      }
      return false;
    }

    /** `logout`: the flag is cleared and the stored key removed. */
    method Logout()
      modifies this
      ensures !authenticated && storage == old(storage) - {StorageKey}
      ensures Valid()
    {
      authenticated := false;
      storage := storage - {StorageKey};
    }
  }

  /** Logging out twice leaves the same state as logging out once. */
  method LogoutTwice(auth: AuthService)
    modifies auth
    ensures !auth.authenticated && auth.storage == old(auth.storage) - {StorageKey}
  {
    auth.Logout();
    auth.Logout();
  }

  /** After a logout, re-reading the storage (as on a reload) finds the user signed out. */
  method LogoutThenReload(auth: AuthService) returns (reloaded: AuthService)
    modifies auth
    ensures !reloaded.IsAuthenticated()
    ensures reloaded.storage == auth.storage
  {
    auth.Logout();
    reloaded := new AuthService(auth.storage);
  }
}
