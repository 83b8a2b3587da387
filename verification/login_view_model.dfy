/** The login screen's view-model: form state, handlers and the credential
    check. */
module LoginViewModel {
  import opened Optional
  import opened Text
  import opened Users
  import opened Credentials
  import opened UiEvents
  import UserDao
  import UserRepository

  datatype LoginUiState = LoginUiState(
    nim: string,
    password: string,
    isLoading: bool,
    error: Option<string>,
    passwordVisible: bool,
    rememberMe: bool)

  const Initial := LoginUiState("", "", false, None, false, false)

  const BlankCredentials := "NIM and Password cannot be blank"
  const InvalidCredentials := "Invalid NIM or Password"
  const ErrorPrefix := "Error: "

  /** The state seen between handlers: the form-level error is either absent
      or the blank-field message while a field is blank, and no login is in
      flight. */
  predicate Consistent(s: LoginUiState)
  {
    && (s.error == None || (s.error == Some(BlankCredentials) && (IsBlank(s.nim) || IsBlank(s.password))))
    && !s.isLoading
  }

  lemma InitialConsistent()
    ensures Consistent(Initial)
  {
  }

  function OnNimChanged(s: LoginUiState, nim: string): (r: LoginUiState)
    ensures r.nim == nim && r.error == None
    ensures r.(nim := s.nim, error := s.error) == s
    ensures Consistent(s) ==> Consistent(r)
  {
    s.(nim := nim, error := None)
  }

  function OnPasswordChanged(s: LoginUiState, password: string): (r: LoginUiState)
    ensures r.password == password && r.error == None
    ensures r.(password := s.password, error := s.error) == s
    ensures Consistent(s) ==> Consistent(r)
  {
    s.(password := password, error := None)
  }

  function OnTogglePasswordVisibility(s: LoginUiState): (r: LoginUiState)
    ensures r.passwordVisible != s.passwordVisible
    ensures r.(passwordVisible := s.passwordVisible) == s
    ensures Consistent(s) ==> Consistent(r)
  {
    s.(passwordVisible := !s.passwordVisible)
  }

  lemma ToggleTwiceRestores(s: LoginUiState)
    ensures OnTogglePasswordVisibility(OnTogglePasswordVisibility(s)) == s
  {
  }

  /** Only the flag changes; nothing is persisted. */
  function OnRememberMeChanged(s: LoginUiState, isChecked: bool): (r: LoginUiState)
    ensures r.rememberMe == isChecked
    ensures r.(rememberMe := s.rememberMe) == s
    ensures Consistent(s) ==> Consistent(r)
  {
    s.(rememberMe := isChecked)
  }

  /** The credentials are accepted: a record exists under `nim` and its hash
      checks against `password`. */
  ghost predicate Accepts(t: UserDao.Table, h: Hasher, nim: string, password: string)
  {
    nim in t && h.check(password, t[nim].passwordHash) == Checked(true)
  }

  /** `onLoginClicked()`. `fault` is the exception the lookup throws, if any. */
  function OnLoginClicked(s: LoginUiState, t: UserDao.Table, h: Hasher, fault: Option<string>)
    : (r: Step<LoginUiState>)
    ensures r.table == t
    ensures IsBlank(s.nim) || IsBlank(s.password) ==>
      r.state == s.(error := Some(BlankCredentials)) && r.events == []
    ensures !IsBlank(s.nim) && !IsBlank(s.password) ==>
      r.state == s.(isLoading := false) && |r.events| == 1
    ensures r.events == [NavigationSuccess] <==>
      !IsBlank(s.nim) && !IsBlank(s.password) && fault.None? && Accepts(t, h, s.nim, s.password)
    ensures NavigationSuccess in r.events ==> r.events == [NavigationSuccess]
    ensures Consistent(s) ==> Consistent(r.state)
  {
    if IsBlank(s.nim) || IsBlank(s.password) then
      Step(s.(error := Some(BlankCredentials)), t, [])
    else
      var loading := s.(isLoading := true);
      var done := loading.(isLoading := false);
      match fault
      case Some(message) =>
        Step(done, t, [ShowToast(ErrorPrefix + message)])
      case None =>
        match UserRepository.GetUserWithNim(t, s.nim)
        case None =>
          Step(done, t, [ShowToast(InvalidCredentials)])
        case Some(user) =>
          match h.check(s.password, user.passwordHash)
          case Checked(true) => Step(done, t, [NavigationSuccess])
          case Checked(false) => Step(done, t, [ShowToast(InvalidCredentials)])
          case Threw(message) => Step(done, t, [ShowToast(ErrorPrefix + message)])
  }

  /** No `nim` enumeration: an unknown `nim` and a wrong password for a known
      one produce the same single message. */
  lemma UnknownUserAndWrongPasswordLookAlike(
    s: LoginUiState, h: Hasher, unknown: UserDao.Table, known: UserDao.Table)
    requires !IsBlank(s.nim) && !IsBlank(s.password)
    requires s.nim !in unknown
    requires s.nim in known && h.check(s.password, known[s.nim].passwordHash) == Checked(false)
    ensures OnLoginClicked(s, unknown, h, None).events == [ShowToast(InvalidCredentials)]
    ensures OnLoginClicked(s, known, h, None).events == OnLoginClicked(s, unknown, h, None).events
  {
  }
}
