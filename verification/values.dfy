/**
 Ruby objects as seen by the hash/array extensions: the value kinds that can
 appear as hash keys, hash values and array elements, their `to_s`/`inspect`
 renderings, and the exceptions the extensions raise.
 */
module Values {

  /** A Ruby object. A `HashV` carries its entries in insertion order. */
  datatype Value =
    | Nil
    | Bool(b: bool)
    | Int(i: int)
    | Str(s: string)
    | Sym(name: string)
    | Arr(elems: seq<Value>)
    | HashV(entries: seq<(Value, Value)>)

  /** An exception raised by an operation: its class and what it carries. */
  datatype Error =
    | ArgumentError(message: string)
    | NoMethodError(methodName: string, receiver: Value)

  /** The result of a non-destructive operation that may raise. */
  datatype Result<+T> = Ok(value: T) | Raise(error: Error)

  /** The result of a destructive operation: it returned its receiver, or it raised. */
  datatype Outcome = ReturnedSelf | Raised(error: Error)

  function DigitChar(d: nat): char
    requires d < 10
  {
    "0123456789"[d]
  }

  /** Decimal rendering of a natural number, as Integer#to_s prints it. */
  function NatToDecimal(n: nat): string
  {
    if n < 10 then [DigitChar(n)] else NatToDecimal(n / 10) + [DigitChar(n % 10)]
  }

  function IntToDecimal(i: int): string
  {
    if i < 0 then "-" + NatToDecimal(-i) else NatToDecimal(i)
  }

  /**
   Backslash-escapes quotes and backslashes, and a `#` that would start an
   interpolation (followed by `{`, `$` or `@`), as String#inspect does.
   */
  function Escape(s: string): string
  {
    if |s| == 0 then ""
    else
      var escaped := s[0] == '"' || s[0] == '\\' || (s[0] == '#' && |s| > 1 && s[1] in "{$@");
      (if escaped then ['\\', s[0]] else [s[0]]) + Escape(s[1..])
  }

  /** `"a\#{b".inspect` escapes the `#` that would start an interpolation. */
  lemma EscapeInterpolationExample()
    ensures Inspect(Str("a#{b")) == "\"a\\#{b\""
  {
    EscapeBeforeBrace();
    QuotedText("a#{b", "a\\#{b");
  }

  /** `"a#b".inspect` leaves a `#` before an ordinary character as it is. */
  lemma LoneHashExample()
    ensures Inspect(Str("a#b")) == "\"a#b\""
  {
    EscapeLoneHash();
    QuotedText("a#b", "a#b");
  }

  /** A string's `inspect` is its escaped text in double quotes. */
  lemma QuotedText(s: string, e: string)
    requires Escape(s) == e
    ensures Inspect(Str(s)) == "\"" + e + "\""
  {
  }

  /** A `#` before `{` is escaped. */
  lemma EscapeBeforeBrace()
    ensures Escape("a#{b") == "a\\#{b"
  {
    assert Escape("b") == "b";
    assert Escape("{b") == "{b";
    assert Escape("#{b") == "\\#{b";
  }

  /** A `#` before an ordinary character is not. */
  lemma EscapeLoneHash()
    ensures Escape("a#b") == "a#b"
  {
    assert Escape("b") == "b";
    assert Escape("#b") == "#b";
  }

  function Join(parts: seq<string>, sep: string): string
  {
    if |parts| == 0 then ""
    else if |parts| == 1 then parts[0]
    else parts[0] + sep + Join(parts[1..], sep)
  }

  /** `v.inspect` in the Ruby 1.9-2.1 format: `[1, :a]`, `{"k"=>nil}`. */
  function Inspect(v: Value): string
  {
    match v
    case Nil => "nil"
    case Bool(b) => if b then "true" else "false"
    case Int(i) => IntToDecimal(i)
    case Str(s) => "\"" + Escape(s) + "\""
    case Sym(n) => ":" + n
    case Arr(xs) =>
      "[" + Join(seq(|xs|, i requires 0 <= i < |xs| => Inspect(xs[i])), ", ") + "]"
    case HashV(es) =>
      "{" + Join(seq(|es|, i requires 0 <= i < |es| => Inspect(es[i].0) + "=>" + Inspect(es[i].1)), ", ") + "}"
  }

  /** `v.to_s`: the text of a string or symbol, "" for nil, `inspect` otherwise. */
  function ToS(v: Value): string
  {
    match v
    case Nil => ""
    case Str(s) => s
    case Sym(n) => n
    case _ => Inspect(v)
  }
}
