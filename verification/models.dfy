/** The API's `models.user.User` class is not part of this model. What the
    auth classes ask of it is taken as given values: the outcome of
    `User.search({'email': e})`, of `User.get(user_id)` and of
    `user.is_valid_password(pwd)`. */
module Models {

  import opened Wrappers

  /** `User.search` either raises or returns the matching users in order */
  datatype Search<U> = SearchRaised | Found(users: seq<U>)

  datatype UserModel<!U> = UserModel(
    search: string -> Search<U>,
    get: Option<string> -> Option<U>,
    isValidPassword: (U, string) -> bool)
}
