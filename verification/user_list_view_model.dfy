/**
  The user-list screen's view-model: the live, name-ordered list of users
  plus the two-field state of the rename dialog.
*/
module UserListViewModel {
  import opened Optional
  import opened Text
  import opened Users
  import UserDao
  import UserRepository

  datatype UserListUiState = UserListUiState(
    users: seq<User>,
    userBeingEdited: Option<User>,
    editDialogName: string)

  /** The view-model's own state: the user whose dialog is open (a snapshot
      taken when it opened) and the name typed so far. */
  datatype EditDialog = EditDialog(userBeingEdited: Option<User>, editDialogName: string)

  /** What a handler leaves behind: the dialog state and the table. */
  datatype Change = Change(dialog: EditDialog, table: UserDao.Table)

  const Closed := EditDialog(None, "")

  /** The value the screen sees before the first combined emission. */
  const InitialUiState := UserListUiState([], None, "")

  /** `combine(users, userBeingEdited, editDialogName)`. */
  function Combine(users: seq<User>, d: EditDialog): UserListUiState
  {
    UserListUiState(users, d.userBeingEdited, d.editDialogName)
  }

  /** The initial value is an empty list beside a closed dialog. */
  lemma InitialIsEmptyAndClosed()
    ensures InitialUiState == Combine([], Closed)
    ensures InitialUiState.users == [] && InitialUiState.userBeingEdited == None
  {
  }

  /** Any emission of `uiState` once the query has emitted: always the
      table's current ordered scan, never a locally edited list. */
  method UiState(t: UserDao.Table, d: EditDialog) returns (ui: UserListUiState)
    ensures UserDao.IsScanOf(ui.users, t)
    ensures ui.userBeingEdited == d.userBeingEdited && ui.editDialogName == d.editDialogName
  {
    var users := UserRepository.GetAllUsers(t);
    ui := Combine(users, d);
  }

  /** `deleteUser(user)`: the table loses the row; the dialog is untouched. */
  function DeleteUser(d: EditDialog, t: UserDao.Table, u: User): (r: Change)
    ensures r.dialog == d
    ensures r.table.Keys == t.Keys - {u.nim}
    ensures UserDao.AgreeExcept(t, r.table, u.nim)
  {
    Change(d, UserRepository.DeleteUser(t, u))
  }

  /** Opens the dialog on `u`, pre-filled with its current name. */
  function OnUpdateUserClicked(d: EditDialog, u: User): (r: EditDialog)
    ensures r.userBeingEdited == Some(u) && r.editDialogName == u.nama
  {
    EditDialog(Some(u), u.nama)
  }

  function OnEditDialogNameChanged(d: EditDialog, newName: string): (r: EditDialog)
    ensures r.editDialogName == newName
    ensures r.userBeingEdited == d.userBeingEdited
  {
    d.(editDialogName := newName)
  }

  function OnEditDialogDismiss(d: EditDialog): (r: EditDialog)
    ensures r.userBeingEdited == None && r.editDialogName == ""
  {
    EditDialog(None, "")
  }

  lemma DismissIdempotent(d: EditDialog)
    ensures OnEditDialogDismiss(OnEditDialogDismiss(d)) == OnEditDialogDismiss(d)
  {
  }

  /** `onEditDialogConfirm()`: with a dialog open on a non-blank name, writes
      the snapshot renamed through the DAO's update and closes the dialog;
      otherwise does nothing. */
  function OnEditDialogConfirm(d: EditDialog, t: UserDao.Table): (r: Change)
    ensures d.userBeingEdited.None? || IsBlank(d.editDialogName) ==> r == Change(d, t)
    ensures d.userBeingEdited.Some? && !IsBlank(d.editDialogName) ==>
      && r.dialog == Closed
      && r.table == UserDao.UpdateUser(t, WithNama(d.userBeingEdited.value, d.editDialogName))
    ensures r.table.Keys == t.Keys
  {
    match d.userBeingEdited
    case None => Change(d, t)
    case Some(userToUpdate) =>
      var newName := d.editDialogName;
      if IsBlank(newName) then
        Change(d, t)
      else
        var table := UserDao.UpdateUser(t, WithNama(userToUpdate, newName));
        Change(OnEditDialogDismiss(d), table)
  }

  /** Confirming a rename of a record the table still holds unchanged
      rewrites its name and nothing else. */
  lemma ConfirmRenamesOnly(d: EditDialog, t: UserDao.Table, u: User)
    requires d.userBeingEdited == Some(u) && !IsBlank(d.editDialogName)
    requires u.nim in t && t[u.nim] == u
    ensures var r := OnEditDialogConfirm(d, t);
      && r.table.Keys == t.Keys
      && r.table[u.nim].nama == d.editDialogName
      && r.table[u.nim].nim == t[u.nim].nim
      && r.table[u.nim].passwordHash == t[u.nim].passwordHash
      && UserDao.AgreeExcept(t, r.table, u.nim)
  {
  }

  /** The record written is the dialog's snapshot renamed: its hash is the
      one held when the dialog opened, whatever the table holds now. */
  lemma ConfirmWritesSnapshot(d: EditDialog, t: UserDao.Table, u: User)
    requires d.userBeingEdited == Some(u) && !IsBlank(d.editDialogName)
    requires u.nim in t
    ensures OnEditDialogConfirm(d, t).table[u.nim] == User(u.nim, d.editDialogName, u.passwordHash)
  {
  }

  /** After a delete, no emission of the list shows the deleted `nim`. */
  lemma ListAfterDeleteOmits(d: EditDialog, t: UserDao.Table, u: User, users: seq<User>)
    requires UserDao.IsScanOf(users, DeleteUser(d, t, u).table)
    ensures forall i :: 0 <= i < |users| ==> users[i].nim != u.nim
  {
    var t' := DeleteUser(d, t, u).table;
    forall i | 0 <= i < |users|
      ensures users[i].nim != u.nim
    {
      assert users[i] in multiset(users);
      assert users[i] in t'.Values;
    }
  }
}
