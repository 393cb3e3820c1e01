/**
 * The application's user record: the framework's identity user (its key and
 * user name) extended with the three columns the application adds.
 * Timestamps are modelled as integers.
 */
module UserModel {

  datatype User = User(
    userName: string,
    registrationDate: int,
    lastVisitDate: int,
    isBlocked: bool)
}
