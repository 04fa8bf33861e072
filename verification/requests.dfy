/** The part of an incoming Flask request that the API's auth classes read. */
module Requests {

  import opened Wrappers

  /** `request.path`, the value of the `Authorization` header (Flask looks
      header names up without regard to case) and the cookies by name */
  datatype Request = Request(path: string, authorization: Option<string>, cookies: map<string, string>)

  /** Python truthiness of an optional string: None and "" are falsy */
  predicate Truthy(s: Option<string>) {
    s.Some? && |s.value| > 0
  }
}
