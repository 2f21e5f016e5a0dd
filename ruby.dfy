/** Ruby values as they flow through the controllers: configuration hashes,
    fleet registry records and device attributes; plus the few core String
    operations the controllers use, restricted to ASCII. */
module Ruby {

  datatype Option<+T> = None | Some(value: T)

  /** A Ruby value as it comes out of a YAML configuration or a JSON reply. */
  datatype Value =
    | Nil
    | Str(s: string)
    | Num(n: int)
    | List(items: seq<Value>)
    | Dict(entries: map<string, Value>)

  /** A Ruby Hash with String keys. */
  type Attributes = map<string, Value>

  /** Hash#[]: the value stored under `key`, or nil when the key is absent. */
  function Get(h: Attributes, key: string): Value
  {
    if key in h then h[key] else Nil
  }

  predicate IsUpper(c: char) { 'A' <= c <= 'Z' }

  predicate IsLower(c: char) { 'a' <= c <= 'z' }

  function ToLower(c: char): char
  {
    if IsUpper(c) then (c as int + 32) as char else c
  }

  function ToUpper(c: char): char
  {
    if IsLower(c) then (c as int - 32) as char else c
  }

  /** String#downcase on ASCII letters. */
  function Downcase(s: string): (r: string)
    ensures |r| == |s|
    ensures forall k :: 0 <= k < |s| ==> r[k] == ToLower(s[k]) && !IsUpper(r[k])
  {
    seq(|s|, k requires 0 <= k < |s| => ToLower(s[k]))
  }

  /** String#capitalize on ASCII letters: first character upper case, the rest lower case. */
  function Capitalize(s: string): (r: string)
    ensures |r| == |s|
    ensures |s| > 0 ==> r[0] == ToUpper(s[0]) && !IsLower(r[0])
    ensures forall k :: 0 < k < |s| ==> r[k] == ToLower(s[k]) && !IsUpper(r[k])
  {
    if s == [] then [] else [ToUpper(s[0])] + Downcase(s[1..])
  }

  /** `a.casecmp(b).zero?`: equal once ASCII letters are folded. */
  predicate CaseEqual(a: string, b: string)
  {
    Downcase(a) == Downcase(b)
  }
}
