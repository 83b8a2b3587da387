/**
  `UserRepositoryImpl`: a pass-through over the DAO. The interface also
  declares `updateUser`, but the implementation has no override for it, so
  the edit flow is modelled as calling `UserDao.UpdateUser` directly.
*/
module UserRepository {
  import opened Optional
  import opened Users
  import UserDao

  /** `register(user)` is `dao.insertUser(user)`: registering a `nim` that is
      already present silently replaces its name and hash. */
  function Register(t: UserDao.Table, u: User): (r: UserDao.Table)
    ensures r == UserDao.InsertUser(t, u)
    ensures u.nim in t ==> r.Keys == t.Keys && r[u.nim] == u
  {
    UserDao.InsertUser(t, u)
  }

  function GetUserWithNim(t: UserDao.Table, nim: string): (r: Option<User>)
    ensures r == UserDao.GetUserWithNim(t, nim)
  {
    UserDao.GetUserWithNim(t, nim)
  }

  /** `getAllUsers()` is the DAO's name-ordered scan, unchanged. */
  method GetAllUsers(t: UserDao.Table) returns (r: seq<User>)
    ensures UserDao.IsScanOf(r, t)
  {
    r := UserDao.GetAllUsers(t);
  }

  function DeleteUser(t: UserDao.Table, u: User): (r: UserDao.Table)
    ensures r == UserDao.DeleteUser(t, u)
  {
    UserDao.DeleteUser(t, u)
  }
}
