/** The `User` entity: one row of table `tbl_users`. */
module Users {

  /** `nim` is the primary key. The record holds the password's hash only;
      there is no field for the plaintext password. */
  datatype User = User(nim: string, nama: string, passwordHash: string)

  /** `user.copy(nama = nama)`: a new display name on the same key and hash. */
  function WithNama(u: User, nama: string): (r: User)
    ensures r.nama == nama
    ensures r.nim == u.nim && r.passwordHash == u.passwordHash
  {
    u.(nama := nama)
  }

  /** Data-class equality: two records are equal exactly when all three
      fields are. */
  lemma ValueEquality(u: User, v: User)
    ensures u == v <==> (u.nim == v.nim && u.nama == v.nama && u.passwordHash == v.passwordHash)
  {
  }
}
