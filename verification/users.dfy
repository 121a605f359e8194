/** The part of the user entity (`Usuario`) that lending reads: whether the
    account is active. */
module Users {
  import opened Common

  datatype User = User(id: UserId, active: bool)
}
