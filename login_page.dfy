/**
 * The four-step login page: username entry, secure-word confirmation,
 * password entry and the result screen. Each handler is one transition; the
 * reply of the request it makes is an input value.
 */
module LoginPage {
  import opened Wrappers
  import opened JsText
  import AuthContext

  const EmptyUsernameMessage := "Username cannot be empty."
  const InvalidUsernameMessage := "Username must contain only letters and numbers."
  const CheckingUsernameMessage := "Checking username..."
  const SecureWordErrorMessage := "Error fetching secure word."
  const UsernameNetworkErrorMessage := "Network error. Please try again."
  const AttemptingLoginMessage := "Attempting login..."
  const LoginFailedMessage := "Login failed. Please check your password."
  const LoginNetworkErrorMessage := "Network error during final login."

  /** The text step 4 looks for in the status message to decide that the login succeeded. */
  const SuccessMarker := "successful"

  /** How a request settles: a body with `success` and its value, a body without `success`, or an exception. */
  datatype Reply<T> = Succeeded(value: T) | NotSuccess | Exception

  /** The body of the final login request. */
  datatype Credentials = Credentials(username: string, encryptedPassword: string)

  /** The verdict on the username before any request is made. */
  datatype UsernameCheck = Empty | InvalidCharacters | Accepted(trimmed: string)

  /**
   * The two checks of the username submit: the trimmed text must be non-empty,
   * then match `/^[a-zA-Z0-9]+$/`; an accepted username is sent trimmed.
   */
  function CheckUsername(username: string): UsernameCheck
  {
    var trimmed := Trim(username);
    if trimmed == "" then Empty
    else if !MatchesAlphanumeric(trimmed) then InvalidCharacters
    else Accepted(trimmed)
  }

  /**
   * The verdicts of `CheckUsername`: empty exactly when nothing but whitespace
   * was typed, invalid exactly when the trimmed text holds a character other
   * than an ASCII letter or digit, and otherwise the trimmed text is accepted.
   */
  lemma CheckUsernameVerdicts(username: string)
    ensures CheckUsername(username) == Empty <==> Trim(username) == ""
    ensures CheckUsername(username) == InvalidCharacters <==>
      Trim(username) != "" && exists i :: 0 <= i < |Trim(username)| && !IsAsciiAlphanumeric(Trim(username)[i])
    ensures CheckUsername(username).Accepted? ==>
      CheckUsername(username).trimmed == Trim(username) && Trim(username) != []
      && forall i :: 0 <= i < |Trim(username)| ==> IsAsciiAlphanumeric(Trim(username)[i])
  {
    MatchesAlphanumericExactly(Trim(username));
  }

  /** Whitespace around a valid username does not cause rejection: the lookup gets the bare name. */
  lemma SurroundingWhitespaceAccepted(before: string, name: string, after: string)
    requires AllTrimmable(before) && AllTrimmable(after) && MatchesAlphanumeric(name)
    ensures CheckUsername(before + name + after) == Accepted(name)
  {
    AlphanumericIsTrimmed(name);
    TrimDropsSurroundings(before, name, after);
  }

  /** The two buttons step 4 can offer. */
  datatype ResultAction = GoToDashboard | TryAgain

  /** Step 4 offers "Go to Dashboard" exactly when the message includes `successful`, and "Try Again" otherwise. */
  function ResultActionFor(statusMessage: string): (action: ResultAction)
    ensures action == GoToDashboard <==> exists i: nat :: OccursAt(statusMessage, SuccessMarker, i)
  {
    if Includes(statusMessage, SuccessMarker) then GoToDashboard else TryAgain
  }

  /** The stub login service's message on success. */
  const StubSuccessMessage := "Login " + "successful" + "! Welcome to AEON Bank."

  lemma LoginFailedMessageLetters()
    ensures LoginFailedMessage[29] == 'u' && LoginFailedMessage[28] == 'o'
    ensures 'u' !in LoginFailedMessage[..29] && 'u' !in LoginFailedMessage[30..]
  {
  }

  lemma LoginNetworkErrorMessageLetters()
    ensures LoginNetworkErrorMessage[15] == 'u' && LoginNetworkErrorMessage[14] == 'd'
    ensures 'u' !in LoginNetworkErrorMessage[..15] && 'u' !in LoginNetworkErrorMessage[16..]
  {
  }

  /** Both failure messages of the final login lead to "Try Again". */
  lemma FailureMessagesOfferTryAgain()
    ensures ResultActionFor(LoginFailedMessage) == TryAgain
    ensures ResultActionFor(LoginNetworkErrorMessage) == TryAgain
  {
    LoginFailedMessageLetters();
    NoOccurrenceWithLoneSecond(LoginFailedMessage, SuccessMarker, 29);
    LoginNetworkErrorMessageLetters();
    NoOccurrenceWithLoneSecond(LoginNetworkErrorMessage, SuccessMarker, 15);
  }

  /** The message the stub login service sends on success leads to "Go to Dashboard". */
  lemma StubSuccessMessageOffersDashboard()
    ensures ResultActionFor(StubSuccessMessage) == GoToDashboard
  {
    OccursBetween("Login ", SuccessMarker, "! Welcome to AEON Bank.");
  }

  /**
   * The status message the final login leaves for each kind of reply: the
   * server's message on success, and otherwise the fixed failure message.
   */
  function FinalLoginMessage(reply: Reply<string>): string
  {
    match reply
    case Succeeded(message) => message
    case NotSuccess => LoginFailedMessage
    case Exception => LoginNetworkErrorMessage
  }

  /** A final login that does not succeed always leaves step 4 offering "Try Again". */
  lemma FailedLoginOffersTryAgain(reply: Reply<string>)
    requires !reply.Succeeded?
    ensures ResultActionFor(FinalLoginMessage(reply)) == TryAgain
  {
    FailureMessagesOfferTryAgain();
  }

  /** `LoginFlow`: the page's state, and the session whose `login` it calls. */
  class LoginFlow {
    const session: AuthContext.AuthProvider
    var step: int
    var username: string
    var password: string
    var secureWord: string
    var loading: bool
    var statusMessage: string

    /**
     * The step is one of the four, no request is outstanding between two
     * events, and past step 1 the username is one the checks accepted.
     */
    ghost predicate Valid()
      reads this, session
    {
      && 1 <= step <= 4
      && !loading
      && (step > 1 ==> CheckUsername(username).Accepted?)
      && session.Valid()
    }

    constructor (session: AuthContext.AuthProvider)
      requires session.Valid()
      ensures Valid() && this.session == session
      ensures step == 1 && username == "" && password == "" && secureWord == ""
      ensures !loading && statusMessage == ""
    {
      this.session := session;
      step := 1;
      username := "";
      password := "";
      secureWord := "";
      loading := false;
      statusMessage := "";
    }

    /** Typing in the username field on step 1. */
    method EditUsername(value: string)
      requires Valid() && step == 1
      modifies this`username
      ensures Valid() && username == value
    {
      username := value;
    }

    /** Typing in the password field on step 3. */
    method EditPassword(value: string)
      requires Valid() && step == 3
      modifies this`password
      ensures Valid() && password == value
    {
      password := value;
    }

    /**
     * `handleUsernameSubmit`. An empty trimmed username keeps the text; one
     * with other characters clears it; neither makes a request. Otherwise the
     * trimmed name is looked up: success stores the secure word and moves to
     * step 2, anything else stays on step 1 with its message. Loading is off
     * at the end in every case.
     */
    method HandleUsernameSubmit(reply: Reply<string>) returns (request: Option<string>)
      requires Valid() && step == 1
      modifies this
      ensures Valid() && !loading
      ensures password == old(password)
      ensures request.Some? <==> CheckUsername(old(username)).Accepted?
      ensures request.Some? ==> request.value == Trim(old(username))
      ensures CheckUsername(old(username)) == Empty ==>
        step == 1 && statusMessage == EmptyUsernameMessage
        && username == old(username) && secureWord == old(secureWord)
      ensures CheckUsername(old(username)) == InvalidCharacters ==>
        step == 1 && statusMessage == InvalidUsernameMessage
        && username == "" && secureWord == old(secureWord)
      ensures request.Some? ==> username == old(username)
      ensures request.Some? && reply.Succeeded? ==>
        step == 2 && secureWord == reply.value && statusMessage == CheckingUsernameMessage
      ensures request.Some? && reply.NotSuccess? ==>
        step == 1 && secureWord == old(secureWord) && statusMessage == SecureWordErrorMessage
      ensures request.Some? && reply.Exception? ==>
        step == 1 && secureWord == old(secureWord) && statusMessage == UsernameNetworkErrorMessage
    {
      match CheckUsername(username) {
        case Empty =>
          statusMessage := EmptyUsernameMessage;
          request := None;
        case InvalidCharacters =>
          statusMessage := InvalidUsernameMessage;
          username := "";
          request := None;
        case Accepted(trimmed) =>
          loading := true;
          statusMessage := CheckingUsernameMessage;
          request := Some(trimmed);
          match reply {
            case Succeeded(word) =>
              secureWord := word;
              step := 2;
            case NotSuccess =>
              statusMessage := SecureWordErrorMessage;
            case Exception =>
              statusMessage := UsernameNetworkErrorMessage;
          }
          loading := false;
      }
    }

    /** Step 2's "Next": step 3 with the message cleared, whatever the secure word is. */
    method ConfirmSecureWord()
      requires Valid() && step == 2
      modifies this
      ensures Valid() && step == 3 && statusMessage == ""
      ensures username == old(username) && password == old(password)
      ensures secureWord == old(secureWord) && loading == old(loading)
    {
      step := 3;
      statusMessage := "";
    }

    /**
     * `handleFinalLogin`. It sends the username as stored and the digest of the
     * password, and always ends on step 4 with loading off. Only a success
     * reply calls the session's `login`; the message is then the server's, and
     * otherwise the fixed failure message of the reply.
     */
    method HandleFinalLogin(sha256Hex: string -> string, reply: Reply<string>) returns (request: Credentials)
      requires Valid() && step == 3
      modifies this, session
      ensures Valid() && step == 4 && !loading
      ensures request == Credentials(username, sha256Hex(password))
      ensures username == old(username) && password == old(password) && secureWord == old(secureWord)
      ensures statusMessage == FinalLoginMessage(reply)
      ensures reply.Succeeded? ==>
        (session.isLoggedIn && session.storage == AuthContext.Persist(session.hasWindow, old(session.storage), true))
      ensures !reply.Succeeded? ==>
        session.isLoggedIn == old(session.isLoggedIn) && session.storage == old(session.storage)
    {
      loading := true;
      statusMessage := AttemptingLoginMessage;
      request := Credentials(username, sha256Hex(password));
      match reply {
        case Succeeded(message) =>
          statusMessage := message;
          session.Login();
        case NotSuccess =>
          statusMessage := LoginFailedMessage;
        case Exception =>
          statusMessage := LoginNetworkErrorMessage;
      }
      step := 4;
      loading := false;
    }

    /** Step 4's "Try Again", offered only without `successful`: back to step 1 keeping username and secure word. */
    method TryAgainFromResult()
      requires Valid() && step == 4 && ResultActionFor(statusMessage) == TryAgain
      modifies this
      ensures Valid() && step == 1 && password == "" && statusMessage == ""
      ensures username == old(username) && secureWord == old(secureWord) && loading == old(loading)
    {
      step := 1;
      password := "";
      statusMessage := "";
    }
  }

  /**
   * A failed final login always reaches "Try Again", and that returns to
   * step 1 with the same username, so the same name can be submitted again.
   */
  method FailedLoginRetry(flow: LoginFlow, sha256Hex: string -> string)
    requires flow.Valid() && flow.step == 3
    modifies flow, flow.session
    ensures flow.Valid() && flow.step == 1 && flow.password == ""
    ensures flow.username == old(flow.username)
    ensures flow.session.isLoggedIn == old(flow.session.isLoggedIn) && flow.session.storage == old(flow.session.storage)
  {
    var request := flow.HandleFinalLogin(sha256Hex, NotSuccess);
    FailedLoginOffersTryAgain(NotSuccess);
    flow.TryAgainFromResult();
  }
}
