# Pro-Sanders-020 user store and view-models, in Dafny

A model of the logic core of a small Android CRUD app: the Room table of
users (`tbl_users`, keyed by `nim`), the repository that passes calls
through to it, and the three view-models that drive registration, login and
the user list with its rename dialog. Every handler is a pure function from
the current UI state and table to the next UI state, the next table and the
one-shot `UiEvent`s it emits; a `viewModelScope.launch` body is taken to run
to completion in one step.

Files and modules:

- `optional.dfy` (`Optional`): Kotlin's nullable `T?`.
- `text.dfy` (`Text`): Kotlin `isBlank()` (with the JVM's `isWhitespace`)
  and the text order of SQLite's BINARY collation, proved a total order.
- `user.dfy` (`Users`): the `User` record and `copy(nama = …)`.
- `user_dao.dfy` (`UserDao`): the table as a map whose type forces
  `t[k].nim == k`; insert-or-replace, lookup, update, delete, and the
  ordered full scan (an insertion sort whose result is any name-ordered
  permutation of the rows: SQL leaves the order of equal names open).
- `user_repository.dfy` (`UserRepository`): the pass-through repository.
- `credentials.dfy` (`Credentials`): BCrypt as a caller-supplied hash and
  check. The only property used is `Sound`: a password checks against its
  own hash. It is a hypothesis of the lemmas that need it, not an axiom.
- `ui_event.dfy` (`UiEvents`): `ShowToast` / `NavigationSuccess` and the
  `Step` a handler returns.
- `register_view_model.dfy`, `login_view_model.dfy`,
  `user_list_view_model.dfy`: the three view-models.
- `scenarios.dfy` (`Scenarios`): register-then-login, and the
  register / login / wrong password / delete walk-through.

Exceptions from the database are a parameter `fault: Option<string>` of
the submit handlers (`Some(message)` means the call threw and the table is
unchanged). `BCrypt.checkpw` may throw on a stored hash it cannot parse; the
checker therefore answers `Checked(bool)` or `Threw(message)`, and a throw
becomes the `"Error: …"` toast, as the catch block does.

The repository interface declares `updateUser`
(app/src/main/java/com/example/prosanders020/repo/UserRepository.kt:11) but `UserRepositoryImpl` has no override
for it, so the implementation as written does not provide the operation the
rename dialog calls. The model has the dialog call `UserDao.UpdateUser`
directly, which is what a one-line pass-through override would do.

Earlier revisions of the app had a list screen without the edit dialog and
a record with a plaintext password. Neither is in this code, so neither is
modelled. The record holds `passwordHash` only.

## Model

| member | source | states |
|---|---|---|
| Users.WithNama | app/src/main/java/com/example/prosanders020/data/User.kt:7-11 | `copy(nama = n)` sets the name and keeps `nim` and `passwordHash` |
| Users.ValueEquality | app/src/main/java/com/example/prosanders020/data/User.kt:7-11 | data-class equality: records are equal iff all three fields are equal |
| UserDao.InsertUser | app/src/main/java/com/example/prosanders020/data/UserDao.kt:13-14 | after insert the key `u.nim` maps to `u` whether or not it was present; the key set grows by at most `u.nim`; every other key is unchanged |
| UserDao.GetUserWithNim | app/src/main/java/com/example/prosanders020/data/UserDao.kt:16-17 | lookup finds a record iff the key is stored, and the record found carries that `nim` and is one of the stored rows |
| UserDao.UpdateUser | app/src/main/java/com/example/prosanders020/data/UserDao.kt:22-23 | update replaces the row keyed `u.nim` when present and is a no-op otherwise; key set and all other rows unchanged |
| UserDao.DeleteUser | app/src/main/java/com/example/prosanders020/data/UserDao.kt:25-26 | delete removes exactly the key `u.nim`, whatever the other fields of `u`; other rows unchanged; size drops by at most one |
| UserDao.InsertThenGet | app/src/main/java/com/example/prosanders020/data/UserDao.kt:13-17 | looking up the `nim` just inserted returns the inserted record |
| UserDao.UpdateThenGet | app/src/main/java/com/example/prosanders020/data/UserDao.kt:16-23 | after an update, looking up `u.nim` gives `u` if the key was present and null otherwise |
| UserDao.DeleteThenGet | app/src/main/java/com/example/prosanders020/data/UserDao.kt:16-26 | after a delete, the deleted key is not found and every other lookup is as before |
| UserDao.InsertByNama | app/src/main/java/com/example/prosanders020/data/UserDao.kt:19-20 | placing a row into a name-ordered list keeps it ordered and adds exactly that row |
| UserDao.GetAllUsers | app/src/main/java/com/example/prosanders020/data/UserDao.kt:19-20 | the full scan is non-decreasing by `nama` and is a permutation (equal multiset) of the table's rows |
| UserDao.ScanKeysDistinct | app/src/main/java/com/example/prosanders020/data/UserDao.kt:19-20 | any ordered scan lists each `nim` at most once, so the list can be keyed by `nim` |
| Text.NoLaterReflexive | app/src/main/java/com/example/prosanders020/data/UserDao.kt:19 | the BINARY text order is reflexive |
| Text.NoLaterTotal | app/src/main/java/com/example/prosanders020/data/UserDao.kt:19 | any two names are comparable under the BINARY text order |
| Text.NoLaterAntisymmetric | app/src/main/java/com/example/prosanders020/data/UserDao.kt:19 | two names each sorting no later than the other are equal |
| Text.NoLaterTransitive | app/src/main/java/com/example/prosanders020/data/UserDao.kt:19 | the BINARY text order is transitive |
| UserRepository.Register | app/src/main/java/com/example/prosanders020/repo/UserRepositoryImpl.kt:16-18 | `register` is exactly the DAO insert, so re-registering a stored `nim` keeps the key set and overwrites name and hash |
| UserRepository.GetUserWithNim | app/src/main/java/com/example/prosanders020/repo/UserRepositoryImpl.kt:14 | the repository lookup is exactly the DAO lookup |
| UserRepository.GetAllUsers | app/src/main/java/com/example/prosanders020/repo/UserRepositoryImpl.kt:12 | the repository list is the DAO's name-ordered scan of the table |
| UserRepository.DeleteUser | app/src/main/java/com/example/prosanders020/repo/UserRepositoryImpl.kt:20-22 | the repository delete is exactly the DAO delete |
| RegisterViewModel.InitialConsistent | app/src/main/java/com/example/prosanders020/ui/viewmodel/RegisterViewModel.kt:17-26 | the default form state satisfies the form invariant (no errors, not loading) |
| RegisterViewModel.OnNimChanged | app/src/main/java/com/example/prosanders020/ui/viewmodel/RegisterViewModel.kt:43-45 | sets `nim`, clears `nimError`, changes nothing else, and preserves the invariant that an error is present only on a blank field |
| RegisterViewModel.OnNamaChanged | app/src/main/java/com/example/prosanders020/ui/viewmodel/RegisterViewModel.kt:47-49 | sets `nama`, clears `namaError`, changes nothing else, preserves the invariant |
| RegisterViewModel.OnPasswordChanged | app/src/main/java/com/example/prosanders020/ui/viewmodel/RegisterViewModel.kt:51-53 | sets `password`, clears `passwordError`, changes nothing else, preserves the invariant |
| RegisterViewModel.OnTogglePasswordVisibility | app/src/main/java/com/example/prosanders020/ui/viewmodel/RegisterViewModel.kt:55-57 | flips `passwordVisible` only, preserves the invariant |
| RegisterViewModel.ToggleTwiceRestores | app/src/main/java/com/example/prosanders020/ui/viewmodel/RegisterViewModel.kt:55-57 | toggling visibility twice restores the state |
| RegisterViewModel.OnRegisterClicked | app/src/main/java/com/example/prosanders020/ui/viewmodel/RegisterViewModel.kt:59-103 | with a blank field only the errors change, each set iff its field is blank, no write and no event; otherwise `isLoading` ends false, the table gains `User(nim, nama, hash(password))` and the events are `[ShowToast("Data berhasil disimpan"), NavigationSuccess]`, or on a store fault the table is unchanged and one failure toast is emitted; navigation happens iff the form is valid and the write succeeds; the invariant is preserved |
| RegisterViewModel.SubmitErrorsMatchBlankFields | app/src/main/java/com/example/prosanders020/ui/viewmodel/RegisterViewModel.kt:63-76 | from a consistent state, after submit each error is present iff its field is blank |
| RegisterViewModel.SubmitStoresHashedUser | app/src/main/java/com/example/prosanders020/ui/viewmodel/RegisterViewModel.kt:83-91 | a successful submit stores the form's `nim` and `nama` with the password's hash under key `nim`, other keys untouched |
| LoginViewModel.InitialConsistent | app/src/main/java/com/example/prosanders020/ui/viewmodel/LoginViewModel.kt:16-23 | the default login state satisfies the invariant |
| LoginViewModel.OnNimChanged | app/src/main/java/com/example/prosanders020/ui/viewmodel/LoginViewModel.kt:36-38 | sets `nim`, clears `error`, nothing else changes, preserves the invariant |
| LoginViewModel.OnPasswordChanged | app/src/main/java/com/example/prosanders020/ui/viewmodel/LoginViewModel.kt:40-42 | sets `password`, clears `error`, nothing else changes, preserves the invariant |
| LoginViewModel.OnTogglePasswordVisibility | app/src/main/java/com/example/prosanders020/ui/viewmodel/LoginViewModel.kt:44-46 | flips `passwordVisible` only |
| LoginViewModel.ToggleTwiceRestores | app/src/main/java/com/example/prosanders020/ui/viewmodel/LoginViewModel.kt:44-46 | the visibility toggle is an involution |
| LoginViewModel.OnRememberMeChanged | app/src/main/java/com/example/prosanders020/ui/viewmodel/LoginViewModel.kt:48-51 | sets `rememberMe` to the argument and changes nothing else |
| LoginViewModel.OnLoginClicked | app/src/main/java/com/example/prosanders020/ui/viewmodel/LoginViewModel.kt:52-77 | never changes the table; a blank field sets the fixed error with no event; otherwise `isLoading` ends false and exactly one event is emitted; the event is `NavigationSuccess` iff the fields are non-blank, the lookup succeeds, a user exists for `nim` and its hash checks against the password; the invariant (error only while a field is blank) is preserved |
| LoginViewModel.UnknownUserAndWrongPasswordLookAlike | app/src/main/java/com/example/prosanders020/ui/viewmodel/LoginViewModel.kt:64-70 | an unknown `nim` and a wrong password both yield exactly `[ShowToast("Invalid NIM or Password")]` |
| UserListViewModel.InitialIsEmptyAndClosed | app/src/main/java/com/example/prosanders020/ui/viewmodel/UserListViewModel.kt:16-20 | the initial state is an empty list, no user being edited and an empty dialog name |
| UserListViewModel.UiState | app/src/main/java/com/example/prosanders020/ui/viewmodel/UserListViewModel.kt:29-45 | every emitted state carries the table's ordered scan and the current dialog fields |
| UserListViewModel.DeleteUser | app/src/main/java/com/example/prosanders020/ui/viewmodel/UserListViewModel.kt:47-51 | delete removes exactly the row keyed by the user's `nim`; the other rows and the dialog are untouched |
| UserListViewModel.ListAfterDeleteOmits | app/src/main/java/com/example/prosanders020/ui/viewmodel/UserListViewModel.kt:47-51 | after a delete, no emitted list contains the deleted `nim` |
| UserListViewModel.OnUpdateUserClicked | app/src/main/java/com/example/prosanders020/ui/viewmodel/UserListViewModel.kt:53-57 | opens the dialog on the user, pre-filled with its name |
| UserListViewModel.OnEditDialogNameChanged | app/src/main/java/com/example/prosanders020/ui/viewmodel/UserListViewModel.kt:59-61 | changes only the typed name |
| UserListViewModel.OnEditDialogDismiss | app/src/main/java/com/example/prosanders020/ui/viewmodel/UserListViewModel.kt:80-83 | resets the dialog to no user and an empty name |
| UserListViewModel.DismissIdempotent | app/src/main/java/com/example/prosanders020/ui/viewmodel/UserListViewModel.kt:80-83 | dismissing twice is the same as dismissing once |
| UserListViewModel.OnEditDialogConfirm | app/src/main/java/com/example/prosanders020/ui/viewmodel/UserListViewModel.kt:63-78 | with no dialog open or a blank name nothing changes; otherwise the renamed snapshot is written by the DAO update and the dialog closes; the key set never changes |
| UserListViewModel.ConfirmRenamesOnly | app/src/main/java/com/example/prosanders020/ui/viewmodel/UserListViewModel.kt:72-77 | confirming on a record the table still holds unchanged rewrites its `nama` only: `nim`, `passwordHash` and all other rows are unchanged |
| UserListViewModel.ConfirmWritesSnapshot | app/src/main/java/com/example/prosanders020/ui/viewmodel/UserListViewModel.kt:63-75 | the record written carries the hash of the snapshot taken when the dialog opened |
| Scenarios.RegisterThenLogin | app/src/main/java/com/example/prosanders020/ui/viewmodel/LoginViewModel.kt:64-67 | for a sound hasher, a successful registration followed by a login with the same `nim` and password navigates on |
| Scenarios.RegisterLoginDeleteScenario | app/src/main/java/com/example/prosanders020/ui/viewmodel/LoginViewModel.kt:60-70 | register "001"/"Alice"/"secret1": the right password logs in, a wrong one gets the generic message, and after deleting the user the list is empty |

## Left out

- Screens, navigation, activity and dependency-injection wiring: layout and plumbing with no state logic.
- Coroutine timing: each `launch` body runs to completion in one step, so the transient `isLoading = true` state and double submissions racing before it takes effect are not modelled.
- `SharingStarted.WhileSubscribed(5000L)` and the attach / grace / detach lifecycle of the list subscription: timer-driven library behaviour; `UserListViewModel.UiState` describes any emission once the query has emitted.
- `MutableSharedFlow` delivery (events lost with no collector): library behaviour; the model returns the emitted events.
- BCrypt internals and salting: `hash` is a deterministic caller-supplied function; the only property assumed is that a password checks against its own hash. The claim that a stored hash never equals the plaintext is not modelled, since nothing in the code promises it beyond the library.
- Exceptions from `updateUser` and `deleteUser` in the list view-model: those launches have no catch, so a failure ends the process; the model assumes these writes succeed.
- Exception message text: a failing store call contributes an arbitrary `message` string to the toast.
- The remember-me persistence is only a TODO comment in the code; the flag is modelled, nothing is saved.
