/** The registration screen's view-model: form state and its handlers. */
module RegisterViewModel {
  import opened Optional
  import opened Text
  import opened Users
  import opened Credentials
  import opened UiEvents
  import UserDao
  import UserRepository

  datatype RegisterUiState = RegisterUiState(
    nim: string,
    nama: string,
    password: string,
    passwordVisible: bool,
    isLoading: bool,
    nimError: Option<string>,
    namaError: Option<string>,
    passwordError: Option<string>)

  const Initial := RegisterUiState("", "", "", false, false, None, None, None)

  const NimRequired := "NIM tidak boleh kosong"
  const NamaRequired := "Nama tidak boleh kosong"
  const PasswordRequired := "Password tidak boleh kosong"
  const Saved := "Data berhasil disimpan"
  const SaveFailedPrefix := "Gagal menyimpan data: "

  /** The state seen between handlers: a field error is either absent or the
      fixed message for a blank field, and no submission is in flight. */
  predicate Consistent(s: RegisterUiState)
  {
    && (s.nimError == None || (s.nimError == Some(NimRequired) && IsBlank(s.nim)))
    && (s.namaError == None || (s.namaError == Some(NamaRequired) && IsBlank(s.nama)))
    && (s.passwordError == None || (s.passwordError == Some(PasswordRequired) && IsBlank(s.password)))
    && !s.isLoading
  }

  lemma InitialConsistent()
    ensures Consistent(Initial)
  {
  }

  function OnNimChanged(s: RegisterUiState, nim: string): (r: RegisterUiState)
    ensures r.nim == nim && r.nimError == None
    ensures r.(nim := s.nim, nimError := s.nimError) == s
    ensures Consistent(s) ==> Consistent(r)
  {
    s.(nim := nim, nimError := None)
  }

  function OnNamaChanged(s: RegisterUiState, nama: string): (r: RegisterUiState)
    ensures r.nama == nama && r.namaError == None
    ensures r.(nama := s.nama, namaError := s.namaError) == s
    ensures Consistent(s) ==> Consistent(r)
  {
    s.(nama := nama, namaError := None)
  }

  function OnPasswordChanged(s: RegisterUiState, password: string): (r: RegisterUiState)
    ensures r.password == password && r.passwordError == None
    ensures r.(password := s.password, passwordError := s.passwordError) == s
    ensures Consistent(s) ==> Consistent(r)
  {
    s.(password := password, passwordError := None)
  }

  function OnTogglePasswordVisibility(s: RegisterUiState): (r: RegisterUiState)
    ensures r.passwordVisible != s.passwordVisible
    ensures r.(passwordVisible := s.passwordVisible) == s
    ensures Consistent(s) ==> Consistent(r)
  {
    s.(passwordVisible := !s.passwordVisible)
  }

  lemma ToggleTwiceRestores(s: RegisterUiState)
    ensures OnTogglePasswordVisibility(OnTogglePasswordVisibility(s)) == s
  {
  }

  /** Some field would fail validation. */
  predicate AnyBlank(s: RegisterUiState)
  {
    IsBlank(s.nim) || IsBlank(s.nama) || IsBlank(s.password)
  }

  /** `onRegisterClicked()`. `fault` is the exception `repository.register`
      throws, if any; the insert is then not applied. */
  function OnRegisterClicked(s: RegisterUiState, t: UserDao.Table, h: Hasher, fault: Option<string>)
    : (r: Step<RegisterUiState>)
    // a blank field: only the three errors change, each set iff its field is blank
    ensures AnyBlank(s) ==>
      && r.table == t && r.events == []
      && r.state.(nimError := s.nimError, namaError := s.namaError, passwordError := s.passwordError) == s
      && (r.state.nimError.Some? <==> IsBlank(s.nim))
      && (r.state.namaError.Some? <==> IsBlank(s.nama))
      && (r.state.passwordError.Some? <==> IsBlank(s.password))
    // a valid form: the loading flag ends cleared whatever the store does
    ensures !AnyBlank(s) ==> r.state == s.(isLoading := false)
    ensures !AnyBlank(s) && fault.None? ==>
      && r.table == UserRepository.Register(t, User(s.nim, s.nama, h.hash(s.password)))
      && r.events == [ShowToast(Saved), NavigationSuccess]
    ensures !AnyBlank(s) && fault.Some? ==>
      r.table == t && r.events == [ShowToast(SaveFailedPrefix + fault.value)]
    ensures NavigationSuccess in r.events <==> !AnyBlank(s) && fault.None?
    ensures Consistent(s) ==> Consistent(r.state)
  {
    var nimError := if IsBlank(s.nim) then Some(NimRequired) else None;
    var namaError := if IsBlank(s.nama) then Some(NamaRequired) else None;
    var passwordError := if IsBlank(s.password) then Some(PasswordRequired) else None;
    if nimError.Some? || namaError.Some? || passwordError.Some? then
      Step(s.(nimError := nimError, namaError := namaError, passwordError := passwordError), t, [])
    else
      var loading := s.(isLoading := true);
      var secureUser := User(s.nim, s.nama, h.hash(s.password));
      match fault
      case None =>
        Step(loading.(isLoading := false), UserRepository.Register(t, secureUser),
             [ShowToast(Saved), NavigationSuccess])
      case Some(message) =>
        Step(loading.(isLoading := false), t, [ShowToast(SaveFailedPrefix + message)])
  }

  /** From a consistent state, after any submit each error is present exactly
      when its field is blank, on the valid-form paths too. */
  lemma SubmitErrorsMatchBlankFields(s: RegisterUiState, t: UserDao.Table, h: Hasher, fault: Option<string>)
    requires Consistent(s)
    ensures var r := OnRegisterClicked(s, t, h, fault);
      && (r.state.nimError.Some? <==> IsBlank(s.nim))
      && (r.state.namaError.Some? <==> IsBlank(s.nama))
      && (r.state.passwordError.Some? <==> IsBlank(s.password))
  {
  }

  /** A successful submit stores the form's record under its `nim`, with the
      hash of the typed password and not the password itself. */
  lemma SubmitStoresHashedUser(s: RegisterUiState, t: UserDao.Table, h: Hasher)
    requires !AnyBlank(s)
    ensures var r := OnRegisterClicked(s, t, h, None);
      && s.nim in r.table
      && r.table[s.nim] == User(s.nim, s.nama, h.hash(s.password))
      && UserDao.AgreeExcept(t, r.table, s.nim)
  {
  }
}
