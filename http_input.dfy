/** The request's query-string parameters as the controller reads them through the `Input` facade. */
module HttpInput {
  import opened Wrappers
  import PhpBuiltins

  /** Parameter name to raw string value; a parameter missing from the map was not sent. */
  type Request = map<string, string>

  /** `Input::get($key)`: the value, or None (PHP null) when the parameter is absent. */
  function Get(req: Request, key: string): (v: Option<string>)
    ensures v.Some? <==> key in req
    ensures key in req ==> v.value == req[key]
  {
    if key in req then Some(req[key]) else None
  }

  /** `Input::get($key, $default)`; also how `trim` reads an absent parameter (null becomes ""). */
  function GetOr(req: Request, key: string, default: string): (v: string)
    ensures key in req ==> v == req[key]
    ensures key !in req ==> v == default
  {
    Get(req, key).GetOr(default)
  }

  /** `Input::has($key)` as Laravel 5.0 to 5.4 define it: the parameter is present and not
    * blank once PHP's default `trim` characters are stripped, that is, it holds a character
    * that is not one of them. */
  predicate Has(req: Request, key: string)
    ensures Has(req, key) <==>
              key in req && exists i :: 0 <= i < |req[key]| && req[key][i] !in PhpBuiltins.DefaultTrimChars
  {
    if key !in req then false
    else
      PhpBuiltins.TrimEmptyIffAllTrimmed(req[key], PhpBuiltins.DefaultTrimChars);
      PhpBuiltins.Trim(req[key], PhpBuiltins.DefaultTrimChars) != ""
  }

  /** `Input::get($key) === 'true'`: a strict comparison, so only the exact string counts. */
  predicate IsTrue(req: Request, key: string) {
    Get(req, key) == Some("true")
  }
}
