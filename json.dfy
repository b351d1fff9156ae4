/** Values as the backend sees them after `response.json()`: optional values and the three
    states a member of a decoded JSON object can be in. */
module Json {

  datatype Option<+T> = None | Some(value: T)

  /** A member of a JSON object: absent, present with the value null, or present. */
  datatype Field<+T> = Missing | Null | Present(value: T)

  /** `obj.get(key)`: absent and null members both give None. */
  function Get<T>(f: Field<T>): Option<T>
  {
    match f
    case Present(v) => Some(v)
    case _ => None
  }

  /** `obj.get(key, default)`: only an absent member gives the default; null stays None. */
  function GetOr<T>(f: Field<T>, default: T): Option<T>
  {
    match f
    case Missing => Some(default)
    case Null => None
    case Present(v) => Some(v)
  }
}
