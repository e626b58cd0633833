/** Registration and login against the hosted auth provider, reduced to
    what the service decides: how a provider failure becomes an `AuthError`. */
module UserService {
  import opened Wrappers
  import opened Text

  datatype RegisterUserRequest = RegisterUserRequest(email: string, password: string, username: string)
  datatype LoginRequest = LoginRequest(email: string, password: string)

  /** The six cases of the sealed error hierarchy. */
  datatype ErrorKind =
    | WeakPassword
    | InvalidCredentials
    | EmailAlreadyExists
    | InvalidEmail
    | NetworkError
    | Unknown

  /** An error case with the text it carries as its exception message. */
  datatype AuthError = AuthError(kind: ErrorKind, details: string)

  /** The message each case carries when constructed without arguments. */
  function DefaultDetails(kind: ErrorKind): string {
    match kind
    case WeakPassword => "Password should be at least 6 characters"
    case InvalidCredentials => "Invalid email or password"
    case EmailAlreadyExists => "Email already registered"
    case InvalidEmail => "Invalid email format"
    case NetworkError => "Network error, please try again"
    case Unknown => "An unexpected error occurred"
  }

  function Default(kind: ErrorKind): (e: AuthError)
    ensures e.kind == kind
  {
    AuthError(kind, DefaultDetails(kind))
  }

  /** The outcome of the provider's sign-up call: success, a REST failure
      with its (nullable) message and its error code, or any other
      exception. */
  datatype SignUpOutcome =
    | SignedUp
    | RestFailure(message: Option<string>, error: string)
    | OtherFailure

  /** `e.message?.contains(kw, ignoreCase = true) == true`: a null message
      mentions nothing. */
  predicate Mentions(message: Option<string>, kw: string) {
    message.Some? && ContainsIgnoreCase(message.value, kw)
  }

  const UnknownPrefix: string := "Registration failed: "

  /** The `when` ladder of `register`: the first rule that fires wins. */
  function ClassifyRestFailure(message: Option<string>, error: string): (e: AuthError)
    ensures e.kind in {WeakPassword, EmailAlreadyExists, InvalidEmail, Unknown}
    ensures e.kind != Unknown ==> e == Default(e.kind)
    ensures e.kind == WeakPassword <==> Mentions(message, "weak_password")
    ensures e.kind == Unknown <==>
              && !Mentions(message, "weak_password")
              && !(Mentions(message, "email") && Mentions(message, "already"))
              && !Mentions(message, "invalid_email")
    ensures e.kind == Unknown ==> e.details == UnknownPrefix + error
  {
    if Mentions(message, "weak_password") then Default(WeakPassword)
    else if Mentions(message, "email") && Mentions(message, "already") then Default(EmailAlreadyExists)
    else if Mentions(message, "invalid_email") then
      InvalidEmailMentionsEmail(message);
      Default(InvalidEmail)
    else AuthError(Unknown, UnknownPrefix + error)
  }

  /** "invalid_email" contains "email", so a message naming it also names
      "email". */
  lemma InvalidEmailMentionsEmail(message: Option<string>)
    requires Mentions(message, "invalid_email")
    ensures Mentions(message, "email")
  {
    assert "invalid_email"[8..13] == "email";
    ContainsPiece(message.value, "invalid_email", 8, 13);
  }

  /** `register`: the success text, the classified REST failure, or a
      network error for every other exception. */
  function Register(request: RegisterUserRequest, outcome: SignUpOutcome): (r: Either<AuthError, string>)
    ensures r.Right? <==> outcome.SignedUp?
    ensures r.Right? ==> r.right == "Registration successful"
    ensures outcome.OtherFailure? ==> r == Left(Default(NetworkError))
    ensures r.Left? ==> r.left.kind != InvalidCredentials
    ensures outcome.RestFailure? ==> r.Left? && r.left.kind != NetworkError
    ensures outcome.RestFailure? ==> r == Left(ClassifyRestFailure(outcome.message, outcome.error))
  {
    match outcome
    case SignedUp => Right("Registration successful")
    case RestFailure(message, error) => Left(ClassifyRestFailure(message, error))
    case OtherFailure => Left(Default(NetworkError))
  }

  /** `login` does not consult the provider: it accepts every request. */
  function Login(request: LoginRequest): (r: Either<AuthError, string>)
    ensures r.Right? && r.right == "Login successful"
  {
    Right("Login successful")
  }

  /** A weak-password report wins over every other rule, whatever else the
      message says. */
  lemma WeakPasswordFirst(m: string, error: string)
    requires ContainsIgnoreCase(m, "weak_password")
    ensures ClassifyRestFailure(Some(m), error) == Default(WeakPassword)
  {
  }

  /** The third rule is shadowed by the second: a message with both
      "invalid_email" and "already" counts as an existing email. */
  lemma InvalidEmailShadowed(m: string, error: string)
    requires !ContainsIgnoreCase(m, "weak_password")
    requires ContainsIgnoreCase(m, "invalid_email") && ContainsIgnoreCase(m, "already")
    ensures ClassifyRestFailure(Some(m), error) == Default(EmailAlreadyExists)
  {
    InvalidEmailMentionsEmail(Some(m));
  }

  /** An invalid-email error comes from a message naming "invalid_email"
      but not "already" (and not a weak password). */
  lemma InvalidEmailIff(message: Option<string>, error: string)
    ensures ClassifyRestFailure(message, error).kind == InvalidEmail <==>
              !Mentions(message, "weak_password") && Mentions(message, "invalid_email") && !Mentions(message, "already")
  {
    if Mentions(message, "invalid_email") {
      InvalidEmailMentionsEmail(message);
    }
  }

  /** A failure without a message is always unknown, carrying the error
      code. */
  lemma NullMessageUnknown(error: string)
    ensures ClassifyRestFailure(None, error) == AuthError(Unknown, UnknownPrefix + error)
  {
  }

  /** Classification ignores letter case in the message. */
  lemma ClassifyIgnoresCase(m: string, error: string)
    ensures ClassifyRestFailure(Some(m), error) == ClassifyRestFailure(Some(LowerAll(m)), error)
  {
    ContainsLowerAll(m, "weak_password");
    ContainsLowerAll(m, "email");
    ContainsLowerAll(m, "already");
    ContainsLowerAll(m, "invalid_email");
  }

  /** Every case's default message tells it apart from the others. */
  lemma DefaultsDistinct(a: ErrorKind, b: ErrorKind)
    ensures DefaultDetails(a) == DefaultDetails(b) <==> a == b
  {
    if a != b {
      assert |DefaultDetails(a)| != |DefaultDetails(b)|;
    }
  }
}
