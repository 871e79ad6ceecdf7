/** `src/components/SignInForm.tsx`: the sign-in dialog. It chooses the
    display name a comment is posted under, stores it in the browser
    and reports the sign-in to its owner. The identity provider's
    answer is an input. */
module SignInFormView {
  import opened Wrappers
  import opened JsText
  import opened Browser

  /** The fields of the signed-in user the dialog reads. */
  datatype User = User(uid: string, displayName: Option<string>, email: Option<string>)

  /** What the dialog reports through `onSignIn` (after which it asks
      to be closed). */
  datatype SignIn = SignIn(displayName: string, provider: string)

  /** The typed name, trimmed, when it is not blank; otherwise
      "Anonymous User " and the last four characters of the uid. */
  function AnonymousDisplayName(username: string, uid: string): (r: string)
    ensures r != ""
    ensures !AllWhitespace(username) ==> r == Trim(username)
    ensures AllWhitespace(username) ==> r == "Anonymous User " + LastChars(uid, 4)
  {
    var typed := Trim(username);
    if typed != "" then typed else "Anonymous User " + LastChars(uid, 4)
  }

  /** Without a typed name, anonymous readers are told apart by the end
      of their uid. */
  lemma AnonymousNameEndsWithUid(username: string, uid: string)
    requires AllWhitespace(username)
    ensures var r := AnonymousDisplayName(username, uid);
      && |r| == 15 + (if |uid| < 4 then |uid| else 4)
      && EndsWith(r, LastChars(uid, 4))
      && EndsWith(uid, LastChars(uid, 4))
  {
    var tail := LastChars(uid, 4);
    var r := AnonymousDisplayName(username, uid);
    assert r[|r| - |tail|..] == tail;
    assert uid[|uid| - |tail|..] == tail;
  }

  predicate KnownProvider(providerName: string) {
    providerName == "google" || providerName == "github" || providerName == "twitter"
  }

  /** `getUsername`: the profile name, else the e-mail address, else
      null; null for a provider it does not know. */
  function GetUsername(user: User, providerName: string): (r: Option<string>)
    ensures !KnownProvider(providerName) ==> r.None?
    ensures KnownProvider(providerName) ==> (r.Some? <==> Truthy(user.displayName) || Truthy(user.email))
    ensures r.Some? ==> r.value != "" && (r == user.displayName || r == user.email)
    ensures KnownProvider(providerName) && Truthy(user.displayName) ==> r == user.displayName
  {
    if !KnownProvider(providerName) then None
    else if Truthy(user.displayName) then user.displayName
    else if Truthy(user.email) then user.email
    else None
  }

  /** With a provider, a typed name that is not blank wins over the
      profile name. */
  function ProviderDisplayName(username: string, profileName: string): (r: string)
    requires profileName != ""
    ensures r != ""
    ensures !AllWhitespace(username) ==> r == Trim(username)
    ensures AllWhitespace(username) ==> r == profileName
  {
    var typed := Trim(username);
    if typed != "" then typed else profileName
  }

  class SignInForm {
    var username: string
    var error: string
    const storage: LocalStorage

    constructor(storage: LocalStorage)
      ensures username == "" && error == "" && this.storage == storage
    {
      username := "";
      error := "";
      this.storage := storage;
    }

    /** The name field's `onChange`. */
    method TypeUsername(value: string)
      modifies this
      ensures username == value && error == old(error)
    {
      username := value;
    }

    /** `handleAnonymousSignIn`. `uid` is the new anonymous user's uid,
        or None when `signInAnonymously` fails. */
    method HandleAnonymousSignIn(uid: Option<string>) returns (signedIn: Option<SignIn>)
      modifies this, storage
      ensures username == old(username)
      ensures uid.None? ==>
        signedIn.None? && error == "Failed to sign in anonymously" && storage.items == old(storage.items)
      ensures uid.Some? ==>
        && signedIn == Some(SignIn(AnonymousDisplayName(username, uid.value), "anonymous"))
        && storage.items == old(storage.items)["displayName" := signedIn.value.displayName]
        && error == old(error)
    {
      if uid.None? {
        error := "Failed to sign in anonymously";
        return None;
      }
      var displayName := AnonymousDisplayName(username, uid.value);
      storage.SetItem("displayName", displayName);
      signedIn := Some(SignIn(displayName, "anonymous"));
    }

    /** `handleProviderSignIn`. `user` is the signed-in user, or None
        when `signInWithPopup` fails. An unknown provider name returns at
        once, before any sign-in is attempted. */
    method HandleProviderSignIn(providerName: string, user: Option<User>) returns (signedIn: Option<SignIn>)
      modifies this, storage
      ensures username == old(username)
      ensures !KnownProvider(providerName) ==>
        signedIn.None? && error == old(error) && storage.items == old(storage.items)
      ensures KnownProvider(providerName) && user.None? ==>
        signedIn.None? && error == "Sign-in failed. Please try again." && storage.items == old(storage.items)
      ensures KnownProvider(providerName) && user.Some? && GetUsername(user.value, providerName).None? ==>
        && signedIn.None?
        && error == "Unable to retrieve the username, cannot proceed with sign-in"
        && storage.items == old(storage.items)
      ensures KnownProvider(providerName) && user.Some? && GetUsername(user.value, providerName).Some? ==>
        && signedIn == Some(SignIn(ProviderDisplayName(username, GetUsername(user.value, providerName).value), providerName))
        && storage.items == old(storage.items)["displayName" := signedIn.value.displayName]
        && error == old(error)
    {
      if !KnownProvider(providerName) {
        return None;
      }
      if user.None? {
        error := "Sign-in failed. Please try again.";
        return None;
      }
      var profileName := GetUsername(user.value, providerName);
      if profileName.None? {
        error := "Unable to retrieve the username, cannot proceed with sign-in";
        return None;
      }
      var displayName := ProviderDisplayName(username, profileName.value);
      storage.SetItem("displayName", displayName);
      signedIn := Some(SignIn(displayName, providerName));
    }
  }
}
