/**
 * JSON values and their text, for the shapes the body serializers emit:
 * objects and arrays as in sections 4 and 5 of RFC 8259, strings escaped as in
 * its section 7. Numbers that stand for coordinates are rendered by a
 * formatter passed in, since float-to-text conversion is library code.
 */
module Json {
  import opened Wrappers
  import opened Kinect
  import Text

  datatype Value =
    | String(s: string)
    | Int(n: int)
    | Number(bits: Single)
    | Array(items: seq<Value>)
    | Object(members: seq<Member>)

  datatype Member = Member(name: string, value: Value)

  /** The member names of an object, in order. */
  function Names(ms: seq<Member>): seq<string>
  {
    seq(|ms|, i requires 0 <= i < |ms| => ms[i].name)
  }

  // ---------------------------------------------------------------- strings

  function HexDigit(d: nat): (c: char)
    requires d < 16
  {
    if d < 10 then ('0' as int + d) as char else ('a' as int + d - 10) as char
  }

  function HexValue(c: char): Option<nat>
  {
    if '0' <= c <= '9' then Some(c as int - '0' as int)
    else if 'a' <= c <= 'f' then Some(c as int - 'a' as int + 10)
    else None
  }

  /** One character of a string body: quote and backslash escaped, control characters as `\u00XX`. */
  function EscapeChar(c: char): string
  {
    if c == '"' then ['\\', '"']
    else if c == '\\' then ['\\', '\\']
    else if c < ' ' then ['\\', 'u', '0', '0', HexDigit(c as int / 16), HexDigit(c as int % 16)]
    else [c]
  }

  /** A string body as written between the quotes: each character escaped. */
  function Escape(s: string): string
    decreases |s|
  {
    if s == [] then [] else EscapeChar(s[0]) + Escape(s[1..])
  }

  /** The string body a reader recovers from escaped text, or None when the text is not a valid body. */
  function Unescape(t: string): Option<string>
    decreases |t|
  {
    if t == [] then Some([])
    else if t[0] == '"' || t[0] < ' ' then None
    else if t[0] != '\\' then
      (match Unescape(t[1..]) case Some(r) => Some([t[0]] + r) case None => None)
    else if |t| >= 2 && (t[1] == '"' || t[1] == '\\') then
      (match Unescape(t[2..]) case Some(r) => Some([t[1]] + r) case None => None)
    else if |t| >= 6 && t[1] == 'u' && t[2] == '0' && t[3] == '0'
         && HexValue(t[4]).Some? && HexValue(t[5]).Some? then
      (match Unescape(t[6..])
       case Some(r) => Some([(HexValue(t[4]).value * 16 + HexValue(t[5]).value) as char] + r)
       case None => None)
    else None
  }

  lemma UnescapeChar(c: char, rest: string)
    ensures Unescape(EscapeChar(c) + rest) ==
      match Unescape(rest) case Some(r) => Some([c] + r) case None => None
  {
    var e := EscapeChar(c);
    if c == '"' || c == '\\' {
      assert (e + rest)[2..] == rest;
    } else if c < ' ' {
      assert (e + rest)[6..] == rest;
      assert HexValue(e[4]) == Some(c as int / 16);
      assert HexValue(e[5]) == Some(c as int % 16);
    } else {
      assert (e + rest)[1..] == rest;
    }
  }

  /** A reader recovers every string from its escaped body. */
  lemma {:induction false} EscapeRoundTrip(s: string)
    ensures Unescape(Escape(s)) == Some(s)
    decreases |s|
  {
    if s != [] {
      EscapeRoundTrip(s[1..]);
      UnescapeChar(s[0], Escape(s[1..]));
      assert [s[0]] + s[1..] == s;
    }
  }

  /** Strings without quote, backslash or control characters go out unescaped. */
  predicate IsPlain(s: string)
  {
    forall i | 0 <= i < |s| :: s[i] != '"' && s[i] != '\\' && s[i] >= ' '
  }

  lemma {:induction false} PlainEscape(s: string)
    requires IsPlain(s)
    ensures Escape(s) == s
    decreases |s|
  {
    if s != [] {
      PlainEscape(s[1..]);
    }
  }

  function Quote(s: string): string
  {
    "\"" + Escape(s) + "\""
  }

  // ---------------------------------------------------------------- values

  /** An integer as a JSON number: optional minus sign, then the decimal digits. */
  function IntText(n: int): string
  {
    if n < 0 then "-" + Text.Decimal(-n) else Text.Decimal(n)
  }

  /** The JSON text of a value: members and elements separated by commas, no white space. */
  function Render(v: Value, num: Single -> string): string
    decreases v
  {
    match v
    case String(s) => Quote(s)
    case Int(n) => IntText(n)
    case Number(b) => num(b)
    case Array(items) =>
      "[" + Text.Join(seq(|items|, i requires 0 <= i < |items| => Render(items[i], num)), ',') + "]"
    case Object(ms) =>
      "{" + Text.Join(seq(|ms|, i requires 0 <= i < |ms| => Quote(ms[i].name) + ":" + Render(ms[i].value, num)), ',') + "}"
  }

  /** An empty array is written `[]`. */
  lemma RenderEmptyArray(num: Single -> string)
    ensures Render(Array([]), num) == "[]"
  {
    var items: seq<Value> := [];
    assert seq(|items|, i requires 0 <= i < |items| => Render(items[i], num)) == [];
  }

  /** An object with one member is written `{`, the quoted name, `:`, the value, `}`. */
  lemma RenderSingleMember(name: string, v: Value, num: Single -> string)
    ensures Render(Object([Member(name, v)]), num) == "{" + Quote(name) + ":" + Render(v, num) + "}"
  {
    var ms := [Member(name, v)];
    var member := Quote(name) + ":" + Render(v, num);
    assert seq(|ms|, i requires 0 <= i < |ms| => Quote(ms[i].name) + ":" + Render(ms[i].value, num)) == [member];
    assert Text.Join([member], ',') == member;
  }

  /** An object whose one member, with a name that needs no escaping, is an empty array is written `{"name":[]}`. */
  lemma RenderEmptyArrayMember(name: string, num: Single -> string)
    requires IsPlain(name)
    ensures Render(Object([Member(name, Array([]))]), num) == "{\"" + name + "\":[]}"
  {
    RenderSingleMember(name, Array([]), num);
    RenderEmptyArray(num);
    PlainEscape(name);
    assert "{" + Quote(name) + ":" + "[]" + "}" == "{\"" + name + "\":[]}";
  }
}
