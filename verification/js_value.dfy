/** JavaScript values as the binding reads them through N-API, and the three
    property helpers of src/emf2svg.cc (`getAsString`, `getPropertyAsString`,
    `getPropertyAsLogical`). */
module JsValue {
  import opened Common

  /** The shapes of JavaScript value the binding distinguishes. */
  datatype JVal =
    | JStr(s: string)
    | JBool(b: bool)
    | JArr(elems: seq<JVal>)
    | JUndef
    | JOther

  /** The options argument. `Object` is anything N-API can read named
      properties from; `Nullish` is `undefined` or `null`, on which every
      property access fails. */
  datatype Arg = Object(props: map<string, JVal>) | Nullish

  /** Error text of the type error raised by `getAsString` on a non-string. */
  const WrongArguments: string := "Wrong arguments"

  /** Named property read; a missing key reads as `undefined`. */
  function Property(arg: Arg, name: string): JVal
  {
    match arg
    case Nullish => JUndef
    case Object(props) => if name in props then props[name] else JUndef
  }

  /** The text `getAsString` keeps: `result = buf` copies the UTF-8 buffer
      as a C string, so everything from the first NUL on is lost. */
  function CText(s: string): string
    decreases |s|
  {
    if s == [] || s[0] == '\0' then [] else [s[0]] + CText(s[1..])
  }

  /** The kept text is the longest NUL-free prefix of the string, and a
      string without NUL is kept whole. */
  lemma {:induction false} CTextPrefix(s: string)
    ensures CText(s) <= s
    ensures '\0' !in CText(s)
    ensures |CText(s)| < |s| ==> s[|CText(s)|] == '\0'
    ensures '\0' !in s ==> CText(s) == s
    decreases |s|
  {
    if s != [] && s[0] != '\0' {
      CTextPrefix(s[1..]);
      assert s == [s[0]] + s[1..];
    }
  }

  /** `getAsString`: a value yields text exactly when it is a string, and
      the text is that string up to its first NUL. */
  function AsString(v: JVal): (r: Option<string>)
    ensures r.Some? <==> v.JStr?
    ensures r.Some? ==> r.value == CText(v.s)
  {
    match v
    case JStr(s) => Some(CText(s))
    case _ => None
  }

  /** `getPropertyAsString`: fails on a nullish argument (the property read
      fails) and on any non-string property, including a missing one. */
  function PropertyAsString(arg: Arg, name: string): (r: Option<string>)
    ensures r.Some? <==> Property(arg, name).JStr?
    ensures r.Some? ==> r.value == CText(Property(arg, name).s)
  {
    match arg
    case Nullish => None
    case Object(_) => AsString(Property(arg, name))
  }

  /** `getPropertyAsLogical`: the default survives unless the property holds
      a boolean (`napi_get_value_bool` leaves its out-parameter alone on a
      non-boolean). */
  function PropertyAsLogical(arg: Arg, name: string, default: bool): (r: bool)
    ensures r != default ==> Property(arg, name) == JBool(r)
    ensures Property(arg, name).JBool? ==> r == Property(arg, name).b
  {
    match Property(arg, name)
    case JBool(b) => b
    case _ => default
  }
}
