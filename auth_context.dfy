/**
 * The session store: one "logged in" flag, read from `localStorage` when the
 * provider mounts and written back every time it changes.
 */
module AuthContext {
  import opened Wrappers

  /** The one `localStorage` key the store owns. */
  const AuthStorageKey := "aeon_is_logged_in"

  /** What `useAuth` throws outside an `AuthProvider`. */
  const MissingProviderError := "useAuth must be used within an AuthProvider"

  /** `flag.toString()`. */
  function FlagText(flag: bool): (s: string)
    ensures s == "true" <==> flag
    ensures s == "false" <==> !flag
  {
    if flag then "true" else "false"
  }

  /**
   * The `useState` initializer: with a window, the flag is `stored === 'true'`
   * (an absent key or any other text reads as false); without one (server
   * render) it is false.
   */
  function ReadFlag(hasWindow: bool, storage: map<string, string>): (flag: bool)
    ensures flag <==> hasWindow && AuthStorageKey in storage && storage[AuthStorageKey] == FlagText(true)
  {
    hasWindow && AuthStorageKey in storage && storage[AuthStorageKey] == "true"
  }

  /** `localStorage.setItem(AUTH_STORAGE_KEY, flag.toString())`. */
  function WriteFlag(storage: map<string, string>, flag: bool): (after: map<string, string>)
    ensures after.Keys == storage.Keys + {AuthStorageKey}
    ensures after[AuthStorageKey] == FlagText(flag)
    ensures forall k :: k in storage && k != AuthStorageKey ==> after[k] == storage[k]
  {
    storage[AuthStorageKey := FlagText(flag)]
  }

  /** The persistence effect: it writes only where a window (and so `localStorage`) exists. */
  function Persist(hasWindow: bool, storage: map<string, string>, flag: bool): (after: map<string, string>)
    ensures !hasWindow ==> after == storage
    ensures hasWindow ==> after == WriteFlag(storage, flag)
  {
    if hasWindow then WriteFlag(storage, flag) else storage
  }

  /** Reading back what was persisted gives the flag that was written. */
  lemma PersistedFlagReadsBack(storage: map<string, string>, flag: bool)
    ensures ReadFlag(true, Persist(true, storage, flag)) == flag
  {
  }

  /** Writing the same flag twice leaves storage as after the first write. */
  lemma PersistIdempotent(hasWindow: bool, storage: map<string, string>, flag: bool)
    ensures Persist(hasWindow, Persist(hasWindow, storage, flag), flag) == Persist(hasWindow, storage, flag)
  {
  }

  /** `useAuth()`: the provider's value, or the error it throws when there is no provider. */
  function UseAuth<C>(context: Option<C>): (r: Result<C, string>)
    ensures r.Failure? <==> context.None?
    ensures r.Failure? ==> r.error == MissingProviderError
    ensures r.Success? ==> r.value == context.value
  {
    match context
    case None => Failure(MissingProviderError)
    case Some(value) => Success(value)
  }

  /**
   * `AuthProvider`: the flag `isLoggedIn` and the browser's `localStorage`,
   * which the provider reads once and writes under its own key only.
   */
  class AuthProvider {
    var isLoggedIn: bool
    var storage: map<string, string>
    /** Whether `window` is defined (false while rendering on the server). */
    const hasWindow: bool

    /** Once mounted, storage holds the flag's text under the key whenever there is a window. */
    ghost predicate Valid()
      reads this
    {
      hasWindow ==> AuthStorageKey in storage && storage[AuthStorageKey] == FlagText(isLoggedIn)
    }

    /** Mounting: the initializer reads the flag, then the effect runs once with it. */
    constructor (hasWindow: bool, storage: map<string, string>)
      ensures Valid()
      ensures this.hasWindow == hasWindow
      ensures isLoggedIn == ReadFlag(hasWindow, storage)
      ensures this.storage == Persist(hasWindow, storage, isLoggedIn)
    {
      this.hasWindow := hasWindow;
      isLoggedIn := ReadFlag(hasWindow, storage);
      this.storage := Persist(hasWindow, storage, ReadFlag(hasWindow, storage));
    }

    /**
     * `login()`: the flag becomes true. React re-runs the effect only when the
     * flag changed, but storage already holds the flag then, so the new storage
     * is the old one with the flag written.
     */
    method Login()
      requires Valid()
      modifies this
      ensures Valid() && isLoggedIn
      ensures storage == Persist(hasWindow, old(storage), true)
      ensures old(isLoggedIn) ==> storage == old(storage)
    {
      if !isLoggedIn {
        isLoggedIn := true;
        storage := Persist(hasWindow, storage, isLoggedIn);
      } else if hasWindow {
        assert storage == storage[AuthStorageKey := FlagText(true)];
      }
    }

    /** `logout()`: the flag becomes false, persisted the same way. */
    method Logout()
      requires Valid()
      modifies this
      ensures Valid() && !isLoggedIn
      ensures storage == Persist(hasWindow, old(storage), false)
      ensures !old(isLoggedIn) ==> storage == old(storage)
    {
      if isLoggedIn {
        isLoggedIn := false;
        storage := Persist(hasWindow, storage, isLoggedIn);
      } else if hasWindow {
        assert storage == storage[AuthStorageKey := FlagText(false)];
      }
    }
  }

  /** A fresh provider mounted on the storage an earlier one left behind starts with that one's flag. */
  method Reload(previous: AuthProvider) returns (next: AuthProvider)
    requires previous.Valid() && previous.hasWindow
    ensures fresh(next) && next.Valid() && next.hasWindow
    ensures next.isLoggedIn == previous.isLoggedIn
    ensures next.storage == previous.storage
  {
    next := new AuthProvider(true, previous.storage);
    assert previous.storage == previous.storage[AuthStorageKey := FlagText(previous.isLoggedIn)];
  }
}
