/** Properties that span more than one screen. */
module Scenarios {
  import opened Optional
  import opened Text
  import opened Users
  import opened Credentials
  import opened UiEvents
  import UserDao
  import RegisterViewModel
  import LoginViewModel
  import UserListViewModel

  /** A registration that reaches the store is followed by a login with the
      same `nim` and password that navigates on. */
  lemma RegisterThenLogin(
    reg: RegisterViewModel.RegisterUiState, t: UserDao.Table, h: Hasher,
    login: LoginViewModel.LoginUiState)
    requires Sound(h)
    requires !RegisterViewModel.AnyBlank(reg)
    requires login.nim == reg.nim && login.password == reg.password
    ensures var stored := RegisterViewModel.OnRegisterClicked(reg, t, h, None).table;
      LoginViewModel.OnLoginClicked(login, stored, h, None).events == [NavigationSuccess]
  {
  }

  /** Register "001"/"Alice"/"secret1", log in with the right and a wrong
      password, then delete the user and look at the list. */
  lemma RegisterLoginDeleteScenario(h: Hasher, d: UserListViewModel.EditDialog, users: seq<User>)
    requires Sound(h)
    requires h.check("wrong", h.hash("secret1")) == Checked(false)
    ensures var t := RegisterViewModel.OnRegisterClicked(AliceForm(), map[], h, None).table;
      && LoginViewModel.OnLoginClicked(AliceLogin("secret1"), t, h, None).events == [NavigationSuccess]
      && LoginViewModel.OnLoginClicked(AliceLogin("wrong"), t, h, None).events
           == [ShowToast(LoginViewModel.InvalidCredentials)]
      && (UserDao.IsScanOf(users, UserListViewModel.DeleteUser(d, t, t["001"]).table) ==> users == [])
  {
    var reg := AliceForm();
    NotBlank("001");
    NotBlank("Alice");
    NotBlank("secret1");
    NotBlank("wrong");
    var t := RegisterViewModel.OnRegisterClicked(reg, map[], h, None).table;
    assert t == map["001" := User("001", "Alice", h.hash("secret1"))];
    RegisterThenLogin(reg, map[], h, AliceLogin("secret1"));
    var after := UserListViewModel.DeleteUser(d, t, t["001"]).table;
    assert after == map[];
    if UserDao.IsScanOf(users, after) {
      assert |multiset(users)| == 0;
    }
  }

  function AliceForm(): RegisterViewModel.RegisterUiState
  {
    RegisterViewModel.Initial.(nim := "001", nama := "Alice", password := "secret1")
  }

  function AliceLogin(password: string): LoginViewModel.LoginUiState
  {
    LoginViewModel.Initial.(nim := "001", password := password)
  }

  lemma NotBlank(s: string)
    requires |s| > 0 && '!' <= s[0] <= '~'
    ensures !IsBlank(s)
  {
  }
}
