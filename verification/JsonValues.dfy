/** Parsed JSON documents, and the outcome types shared by the file models. */
module JsonValues {

  datatype Option<+T> = None | Some(value: T)

  datatype Result<+R, +E> = Success(value: R) | Failure(error: E)

  datatype Json =
    | JNull
    | JBool(flag: bool)
    | JNumber(number: int)
    | JString(text: string)
    | JArray(items: seq<Json>)
    | JObject(fields: map<string, Json>)
  {
    /** `value.get(key)`: the member of an object, absent for every other value. */
    function Get(key: string): Option<Json> {
      if JObject? && key in fields then Some(fields[key]) else None
    }

    /** `value.get(key).and_then(as_str)`. */
    function GetString(key: string): Option<string> {
      match Get(key)
      case Some(JString(text)) => Some(text)
      case _ => None
    }
  }
}
