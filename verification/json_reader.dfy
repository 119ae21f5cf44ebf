/**
 * A reader for the text `Json.Render` writes, guided by the shape of the value
 * a consumer of the stream expects: it takes the `{"bodies":[...]}` text a
 * socket receives back to the value tree. Number text is read by a parser
 * passed in, the inverse of the number formatter.
 */
module JsonReader {
  import opened Wrappers
  import opened Kinect
  import opened Json
  import Text

  /** The expected form of a value; an object's member names and their shapes are fixed. */
  datatype Shape =
    | StringShape
    | IntShape
    | NumberShape
    | ArrayShape(elem: Shape)
    | ObjectShape(names: seq<string>, fields: seq<Shape>)

  /** `v` has the shape `sh`: the same kinds, and an object's members named and shaped as listed. */
  predicate Conforms(v: Value, sh: Shape)
    decreases v
  {
    match v
    case String(_) => sh.StringShape?
    case Int(_) => sh.IntShape?
    case Number(_) => sh.NumberShape?
    case Array(items) =>
      sh.ArrayShape? && forall i | 0 <= i < |items| :: Conforms(items[i], sh.elem)
    case Object(ms) =>
      sh.ObjectShape? && |ms| == |sh.fields| && Names(ms) == sh.names
      && forall i | 0 <= i < |ms| :: Conforms(ms[i].value, sh.fields[i])
  }

  // ---------------------------------------------------------------- tokens

  /** The characters that end a number: the next element, or the end of the array or object. */
  predicate IsDelimiter(c: char) { c == ',' || c == ']' || c == '}' }

  /** What may follow a value in the text: nothing, or a delimiter. */
  predicate EndsValue(rest: string) { rest == [] || IsDelimiter(rest[0]) }

  predicate IsToken(s: string) { forall i | 0 <= i < |s| :: !IsDelimiter(s[i]) }

  /**
   * The number formatter writes a non-empty token for every value, and `numOf`
   * parses each such token back to its value.
   */
  ghost predicate NumberFormat(num: Single -> string, numOf: string -> Option<Single>)
  {
    forall b: Single :: |num(b)| > 0 && IsToken(num(b)) && numOf(num(b)) == Some(b)
  }

  /** The literal `lit` at the start of `t`, and what follows it. */
  function Expect(lit: string, t: string): (r: Option<string>)
    ensures r.Some? ==> |r.value| == |t| - |lit|
  {
    if |lit| <= |t| && t[..|lit|] == lit then Some(t[|lit|..]) else None
  }

  lemma ExpectLiteral(lit: string, rest: string)
    ensures Expect(lit, lit + rest) == Some(rest)
  {
    assert (lit + rest)[..|lit|] == lit;
    assert (lit + rest)[|lit|..] == rest;
  }

  /** The length of the token at the start of `t`: up to the first delimiter or the end. */
  function TokenLength(t: string): (n: nat)
    ensures n <= |t|
    decreases |t|
  {
    if t == [] || IsDelimiter(t[0]) then 0 else 1 + TokenLength(t[1..])
  }

  /** A token followed by a delimiter or the end is read whole. */
  lemma {:induction false} TokenLengthOf(tok: string, rest: string)
    requires IsToken(tok) && EndsValue(rest)
    ensures TokenLength(tok + rest) == |tok|
    decreases |tok|
  {
    if tok != [] {
      assert (tok + rest)[1..] == tok[1..] + rest;
      TokenLengthOf(tok[1..], rest);
    }
  }

  /** An integer token: an optional minus sign, then one or more digits. */
  function IntOfText(s: string): (r: Option<int>)
    ensures r.Some? ==> |s| > 0
  {
    if |s| > 1 && s[0] == '-' && Text.AllDigits(s[1..]) then Some(-(Text.DigitsValue(s[1..]) as int))
    else if |s| > 0 && Text.AllDigits(s) then Some(Text.DigitsValue(s))
    else None
  }

  /** Every integer's text is a non-empty token that reads back as the integer. */
  lemma IntTextRoundTrip(n: int)
    ensures |IntText(n)| > 0 && IsToken(IntText(n))
    ensures IntOfText(IntText(n)) == Some(n)
  {
    var s := IntText(n);
    if n < 0 {
      assert s[1..] == Text.Decimal(-n);
      Text.DecimalValue(-n);
    } else {
      Text.DecimalValue(n);
    }
  }

  // ---------------------------------------------------------------- strings

  /** The position of the quote that closes a string body; a backslash escapes the character after it. */
  function BodyLength(t: string): (r: Option<nat>)
    ensures r.Some? ==> r.value < |t| && t[r.value] == '"'
    decreases |t|
  {
    if t == [] then None
    else if t[0] == '"' then Some(0)
    else if t[0] == '\\' then
      if |t| < 2 then None
      else match BodyLength(t[2..]) case Some(n) => Some(n + 2) case None => None
    else match BodyLength(t[1..]) case Some(n) => Some(n + 1) case None => None
  }

  /** A character after a backslash is skipped with it. */
  lemma BodyLengthPair(c: char, d: char, u: string, n: nat)
    requires c == '\\' && BodyLength(u) == Some(n)
    ensures BodyLength([c, d] + u) == Some(n + 2)
  {
    assert ([c, d] + u)[2..] == u;
  }

  /** A character that is neither a quote nor a backslash is part of the body. */
  lemma BodyLengthPlain(c: char, u: string, n: nat)
    requires c != '"' && c != '\\' && BodyLength(u) == Some(n)
    ensures BodyLength([c] + u) == Some(n + 1)
  {
    assert ([c] + u)[1..] == u;
  }

  /** After `\\u00`, the two hex digits are part of the body. */
  lemma BodyLengthUnicode(h1: char, h2: char, u: string, n: nat)
    requires h1 != '"' && h1 != '\\' && h2 != '"' && h2 != '\\' && BodyLength(u) == Some(n)
    ensures BodyLength(['\\', 'u', '0', '0', h1, h2] + u) == Some(n + 6)
  {
    var u2 := [h2] + u;
    var u1 := [h1] + u2;
    var u0 := ['0'] + u1;
    var uu := ['0'] + u0;
    BodyLengthPlain(h2, u, n);
    BodyLengthPlain(h1, u2, n + 1);
    BodyLengthPlain('0', u1, n + 2);
    BodyLengthPlain('0', u0, n + 3);
    BodyLengthPair('\\', 'u', uu, n + 4);
    SixCons('\\', 'u', '0', '0', h1, h2, u);
  }

  lemma SixCons(a: char, b: char, c: char, d: char, e: char, f: char, u: string)
    ensures [a, b, c, d, e, f] + u == [a, b] + ([c] + ([d] + ([e] + ([f] + u))))
  {
  }

  /** The closing quote after an escaped character is found one escaped character further on. */
  lemma BodyLengthChar(c: char, u: string, n: nat)
    requires BodyLength(u) == Some(n)
    ensures BodyLength(EscapeChar(c) + u) == Some(n + |EscapeChar(c)|)
  {
    var e := EscapeChar(c);
    if c == '"' || c == '\\' {
      BodyLengthPair(e[0], e[1], u, n);
      assert e == [e[0], e[1]];
    } else if c < ' ' {
      BodyLengthUnicode(e[4], e[5], u, n);
      assert e == ['\\', 'u', '0', '0', e[4], e[5]];
    } else {
      BodyLengthPlain(c, u, n);
      assert e == [c];
    }
  }

  /** In an escaped body followed by a quote, the closing quote is the one after the body. */
  lemma {:induction false} BodyLengthEscape(s: string, rest: string)
    ensures BodyLength(Escape(s) + "\"" + rest) == Some(|Escape(s)|)
    decreases |s|
  {
    if s == [] {
      assert Escape(s) + "\"" + rest == "\"" + rest;
    } else {
      var e0, e1 := EscapeChar(s[0]), Escape(s[1..]);
      BodyLengthEscape(s[1..], rest);
      BodyLengthChar(s[0], e1 + "\"" + rest, |e1|);
      assert Escape(s) == e0 + e1;
      Assoc4(e0, e1, "\"", rest);
    }
  }

  /** A quoted string at the start of `t`, unescaped, and what follows its closing quote. */
  function ReadString(t: string): (r: Option<(string, string)>)
    ensures r.Some? ==> |r.value.1| < |t|
  {
    if t == [] || t[0] != '"' then None
    else match BodyLength(t[1..])
      case None => None
      case Some(n) =>
        match Unescape(t[1..][..n])
        case Some(s) => Some((s, t[n + 2..]))
        case None => None
  }

  /** Every quoted string reads back as the string. */
  lemma ReadQuote(s: string, rest: string)
    ensures ReadString(Quote(s) + rest) == Some((s, rest))
  {
    var t := Quote(s) + rest;
    var e := Escape(s);
    assert t[1..] == e + "\"" + rest;
    BodyLengthEscape(s, rest);
    EscapeRoundTrip(s);
    assert t[1..][..|e|] == e;
    assert t[|e| + 2..] == rest;
  }

  // ---------------------------------------------------------------- values

  /** The value of shape `sh` at the start of `t`, and the text after it. */
  function ReadValue(sh: Shape, t: string, numOf: string -> Option<Single>): (r: Option<(Value, string)>)
    ensures r.Some? ==> |r.value.1| < |t|
    decreases sh, |t|, 0
  {
    match sh
    case StringShape =>
      (match ReadString(t) case Some((s, rest)) => Some((String(s), rest)) case None => None)
    case IntShape =>
      var n := TokenLength(t);
      (match IntOfText(t[..n]) case Some(i) => Some((Int(i), t[n..])) case None => None)
    case NumberShape =>
      var n := TokenLength(t);
      if n == 0 then None
      else (match numOf(t[..n]) case Some(b) => Some((Number(b), t[n..])) case None => None)
    case ArrayShape(_) =>
      if t == [] || t[0] != '[' then None
      else if |t| >= 2 && t[1] == ']' then Some((Array([]), t[2..]))
      else (match ReadItems(sh, t[1..], numOf) case Some((items, rest)) => Some((Array(items), rest)) case None => None)
    case ObjectShape(names, fields) =>
      if t == [] || t[0] != '{' || |names| != |fields| then None
      else if fields == [] then (if |t| >= 2 && t[1] == '}' then Some((Object([]), t[2..])) else None)
      else (match ReadMembers(sh, 0, t[1..], numOf) case Some((ms, rest)) => Some((Object(ms), rest)) case None => None)
  }

  /** The elements of an array after its '[': values separated by ',' up to the closing ']'. */
  function ReadItems(sh: Shape, t: string, numOf: string -> Option<Single>): (r: Option<(seq<Value>, string)>)
    requires sh.ArrayShape?
    ensures r.Some? ==> |r.value.1| < |t|
    decreases sh, |t|, 1
  {
    match ReadValue(sh.elem, t, numOf)
    case None => None
    case Some((v, rest)) =>
      if rest == [] then None
      else if rest[0] == ']' then Some(([v], rest[1..]))
      else if rest[0] == ',' then
        (match ReadItems(sh, rest[1..], numOf) case Some((vs, after)) => Some(([v] + vs, after)) case None => None)
      else None
  }

  /** The members of an object from the `k`-th on, after its '{': quoted name, ':', value, then ',' or '}'. */
  function ReadMembers(sh: Shape, k: nat, t: string, numOf: string -> Option<Single>): (r: Option<(seq<Member>, string)>)
    requires sh.ObjectShape? && |sh.names| == |sh.fields| && k < |sh.fields|
    ensures r.Some? ==> |r.value.1| < |t|
    decreases sh, |t|, 1
  {
    match Expect(Quote(sh.names[k]) + ":", t)
    case None => None
    case Some(t1) =>
      match ReadValue(sh.fields[k], t1, numOf)
      case None => None
      case Some((v, rest)) =>
        if rest == [] then None
        else if k + 1 == |sh.fields| then
          (if rest[0] == '}' then Some(([Member(sh.names[k], v)], rest[1..])) else None)
        else if rest[0] == ',' then
          (match ReadMembers(sh, k + 1, rest[1..], numOf)
           case Some((ms, after)) => Some(([Member(sh.names[k], v)] + ms, after))
           case None => None)
        else None
  }

  /** The whole text as one value of shape `sh`, with nothing after it. */
  function Read(sh: Shape, t: string, numOf: string -> Option<Single>): Option<Value>
  {
    match ReadValue(sh, t, numOf)
    case Some((v, rest)) => if rest == [] then Some(v) else None
    case None => None
  }

  // ---------------------------------------------------------------- reading what Render wrote

  /** A rendered value is never empty and never starts with ']'. */
  lemma RenderStart(v: Value, num: Single -> string, numOf: string -> Option<Single>)
    requires NumberFormat(num, numOf)
    ensures |Render(v, num)| > 0 && Render(v, num)[0] != ']'
  {
    match v
    case Int(n) => IntTextRoundTrip(n);
    case Number(b) => assert |num(b)| > 0 && IsToken(num(b));
    case _ =>
  }

  /** `ws` are the texts of `items`, one each. */
  predicate Rendered(ws: seq<string>, items: seq<Value>, num: Single -> string)
  {
    |ws| == |items| && forall i | 0 <= i < |items| :: ws[i] == Render(items[i], num)
  }

  /** `ps` are the member texts of `ms`: quoted name, ':', value. */
  predicate RenderedMembers(ps: seq<string>, ms: seq<Member>, num: Single -> string)
  {
    |ps| == |ms| && forall i | 0 <= i < |ms| :: ps[i] == Quote(ms[i].name) + ":" + Render(ms[i].value, num)
  }

  /** Joining a first piece to at least one more puts a comma after it. */
  lemma JoinFirst(ws: seq<string>, k: nat)
    requires k + 1 < |ws|
    ensures Text.Join(ws[k..], ',') == ws[k] + "," + Text.Join(ws[k + 1..], ',')
  {
    assert ws[k..][1..] == ws[k + 1..];
  }

  /** The text from a piece that is not the last on: the piece, a comma, then the text from the next piece on. */
  lemma JoinNext(ws: seq<string>, k: nat, close: string, rest: string)
    requires k + 1 < |ws|
    ensures Text.Join(ws[k..], ',') + close + rest == ws[k] + ("," + (Text.Join(ws[k + 1..], ',') + close + rest))
  {
    JoinFirst(ws, k);
    Regroup(ws[k], ",", Text.Join(ws[k + 1..], ','), close, rest);
  }

  /** The text from the last piece on: the piece, then the closing bracket. */
  lemma JoinLast(ws: seq<string>, k: nat, close: string, rest: string)
    requires k + 1 == |ws|
    ensures Text.Join(ws[k..], ',') + close + rest == ws[k] + (close + rest)
  {
    assert ws[k..] == [ws[k]];
  }

  lemma Regroup<T>(a: seq<T>, b: seq<T>, c: seq<T>, d: seq<T>, e: seq<T>)
    ensures a + b + c + d + e == a + (b + (c + d + e))
  {
  }

  lemma SliceCons<T>(s: seq<T>, k: nat)
    requires k < |s|
    ensures s[k..] == [s[k]] + s[k + 1..]
  {
  }

  lemma Assoc4<T>(a: seq<T>, b: seq<T>, c: seq<T>, d: seq<T>)
    ensures a + b + c + d == a + (b + c + d)
  {
  }

  lemma Assoc<T>(a: seq<T>, b: seq<T>, c: seq<T>)
    ensures a + b + c == a + (b + c)
  {
  }

  // One step of each list reader, so that the proofs below never unfold the readers themselves.

  lemma ArrayEmpty(sh: Shape, rest: string, numOf: string -> Option<Single>)
    requires sh.ArrayShape?
    ensures ReadValue(sh, "[]" + rest, numOf) == Some((Array([]), rest))
  {
    assert ("[]" + rest)[2..] == rest;
  }

  lemma ArrayOpen(sh: Shape, u: string, items: seq<Value>, rest: string, numOf: string -> Option<Single>)
    requires sh.ArrayShape? && u != [] && u[0] != ']'
    requires ReadItems(sh, u, numOf) == Some((items, rest))
    ensures ReadValue(sh, "[" + u, numOf) == Some((Array(items), rest))
  {
    assert ("[" + u)[1..] == u;
  }

  lemma ObjectEmpty(sh: Shape, rest: string, numOf: string -> Option<Single>)
    requires sh.ObjectShape? && sh.names == [] && sh.fields == []
    ensures ReadValue(sh, "{}" + rest, numOf) == Some((Object([]), rest))
  {
    assert ("{}" + rest)[2..] == rest;
  }

  lemma ObjectOpen(sh: Shape, u: string, ms: seq<Member>, rest: string, numOf: string -> Option<Single>)
    requires sh.ObjectShape? && |sh.names| == |sh.fields| && sh.fields != []
    requires ReadMembers(sh, 0, u, numOf) == Some((ms, rest))
    ensures ReadValue(sh, "{" + u, numOf) == Some((Object(ms), rest))
  {
    assert ("{" + u)[1..] == u;
  }

  lemma ItemsLast(sh: Shape, t: string, x: Value, rest: string, numOf: string -> Option<Single>)
    requires sh.ArrayShape? && ReadValue(sh.elem, t, numOf) == Some((x, "]" + rest))
    ensures ReadItems(sh, t, numOf) == Some(([x], rest))
  {
    assert ("]" + rest)[1..] == rest;
  }

  lemma ItemsNext(sh: Shape, t: string, x: Value, after: string, xs: seq<Value>, rest: string, numOf: string -> Option<Single>)
    requires sh.ArrayShape? && ReadValue(sh.elem, t, numOf) == Some((x, "," + after))
    requires ReadItems(sh, after, numOf) == Some((xs, rest))
    ensures ReadItems(sh, t, numOf) == Some(([x] + xs, rest))
  {
    assert ("," + after)[1..] == after;
  }

  lemma MembersLast(sh: Shape, k: nat, t: string, t1: string, x: Value, rest: string, numOf: string -> Option<Single>)
    requires sh.ObjectShape? && |sh.names| == |sh.fields| && k + 1 == |sh.fields|
    requires Expect(Quote(sh.names[k]) + ":", t) == Some(t1)
    requires ReadValue(sh.fields[k], t1, numOf) == Some((x, "}" + rest))
    ensures ReadMembers(sh, k, t, numOf) == Some(([Member(sh.names[k], x)], rest))
  {
    assert ("}" + rest)[1..] == rest;
  }

  lemma MembersNext(sh: Shape, k: nat, t: string, t1: string, x: Value, after: string, ms: seq<Member>, rest: string, numOf: string -> Option<Single>)
    requires sh.ObjectShape? && |sh.names| == |sh.fields| && k + 1 < |sh.fields|
    requires Expect(Quote(sh.names[k]) + ":", t) == Some(t1)
    requires ReadValue(sh.fields[k], t1, numOf) == Some((x, "," + after))
    requires ReadMembers(sh, k + 1, after, numOf) == Some((ms, rest))
    ensures ReadMembers(sh, k, t, numOf) == Some(([Member(sh.names[k], x)] + ms, rest))
  {
    assert ("," + after)[1..] == after;
  }

  /**
   * The reader inverts the renderer: the text of any value of shape `sh`,
   * followed by nothing or a delimiter, reads back as that value.
   */
  lemma {:induction false} ReadRender(sh: Shape, v: Value, rest: string, num: Single -> string, numOf: string -> Option<Single>)
    requires NumberFormat(num, numOf) && Conforms(v, sh) && EndsValue(rest)
    ensures ReadValue(sh, Render(v, num) + rest, numOf) == Some((v, rest))
    decreases v, 2, 0, 0
  {
    var t := Render(v, num) + rest;
    match v
    case String(s) =>
      ReadQuote(s, rest);
    case Int(n) =>
      IntTextRoundTrip(n);
      TokenLengthOf(IntText(n), rest);
      assert t[..|IntText(n)|] == IntText(n) && t[|IntText(n)|..] == rest;
    case Number(b) =>
      assert |num(b)| > 0 && IsToken(num(b)) && numOf(num(b)) == Some(b);
      TokenLengthOf(num(b), rest);
      assert t[..|num(b)|] == num(b) && t[|num(b)|..] == rest;
    case Array(items) =>
      ReadRenderArray(sh, v, rest, num, numOf);
    case Object(ms) =>
      ReadRenderObject(sh, v, rest, num, numOf);
  }

  lemma {:induction false} ReadRenderArray(sh: Shape, v: Value, rest: string, num: Single -> string, numOf: string -> Option<Single>)
    requires NumberFormat(num, numOf) && v.Array? && Conforms(v, sh) && EndsValue(rest)
    ensures ReadValue(sh, Render(v, num) + rest, numOf) == Some((v, rest))
    decreases v, 1, 0, 0
  {
    var items := v.items;
    var ws := seq(|items|, i requires 0 <= i < |items| => Render(items[i], num));
    var j := Text.Join(ws, ',');
    assert Render(v, num) == "[" + j + "]";
    if items == [] {
      assert Render(v, num) + rest == "[]" + rest;
      ArrayEmpty(sh, rest, numOf);
    } else {
      var u := j + "]" + rest;
      assert Render(v, num) + rest == "[" + u;
      RenderStart(items[0], num, numOf);
      assert ws[0..] == ws && items[0..] == items;
      if |ws| > 1 {
        JoinFirst(ws, 0);
      }
      assert u[0] == ws[0][0];
      ReadItemsRender(sh, v, ws, 0, rest, num, numOf);
      ArrayOpen(sh, u, items, rest, numOf);
    }
  }

  /** The elements from the `k`-th on, then ']', read back as those elements. */
  lemma {:induction false} ReadItemsRender(sh: Shape, v: Value, ws: seq<string>, k: nat, rest: string, num: Single -> string, numOf: string -> Option<Single>)
    requires NumberFormat(num, numOf) && v.Array? && Conforms(v, sh) && EndsValue(rest)
    requires Rendered(ws, v.items, num) && k < |ws|
    ensures ReadItems(sh, Text.Join(ws[k..], ',') + "]" + rest, numOf) == Some((v.items[k..], rest))
    decreases v, 0, |ws| - k, 1
  {
    if k + 1 == |ws| {
      ReadLastItem(sh, v, ws, k, rest, num, numOf);
    } else {
      ReadNextItem(sh, v, ws, k, rest, num, numOf);
    }
  }

  lemma {:induction false} ReadLastItem(sh: Shape, v: Value, ws: seq<string>, k: nat, rest: string, num: Single -> string, numOf: string -> Option<Single>)
    requires NumberFormat(num, numOf) && v.Array? && Conforms(v, sh) && EndsValue(rest)
    requires Rendered(ws, v.items, num) && k + 1 == |ws|
    ensures ReadItems(sh, Text.Join(ws[k..], ',') + "]" + rest, numOf) == Some((v.items[k..], rest))
    decreases v, 0, 0, 0
  {
    var x := v.items[k];
    var t := Text.Join(ws[k..], ',') + "]" + rest;
    JoinLast(ws, k, "]", rest);
    assert t == Render(x, num) + ("]" + rest);
    ReadRender(sh.elem, x, "]" + rest, num, numOf);
    ItemsLast(sh, t, x, rest, numOf);
    assert v.items[k..] == [x];
  }

  lemma {:induction false} ReadNextItem(sh: Shape, v: Value, ws: seq<string>, k: nat, rest: string, num: Single -> string, numOf: string -> Option<Single>)
    requires NumberFormat(num, numOf) && v.Array? && Conforms(v, sh) && EndsValue(rest)
    requires Rendered(ws, v.items, num) && k + 1 < |ws|
    ensures ReadItems(sh, Text.Join(ws[k..], ',') + "]" + rest, numOf) == Some((v.items[k..], rest))
    decreases v, 0, |ws| - k, 0
  {
    var x := v.items[k];
    var t := Text.Join(ws[k..], ',') + "]" + rest;
    var after := Text.Join(ws[k + 1..], ',') + "]" + rest;
    JoinNext(ws, k, "]", rest);
    assert t == Render(x, num) + ("," + after);
    ReadRender(sh.elem, x, "," + after, num, numOf);
    ReadItemsRender(sh, v, ws, k + 1, rest, num, numOf);
    ItemsNext(sh, t, x, after, v.items[k + 1..], rest, numOf);
    SliceCons(v.items, k);
  }

  lemma {:induction false} ReadRenderObject(sh: Shape, v: Value, rest: string, num: Single -> string, numOf: string -> Option<Single>)
    requires NumberFormat(num, numOf) && v.Object? && Conforms(v, sh) && EndsValue(rest)
    ensures ReadValue(sh, Render(v, num) + rest, numOf) == Some((v, rest))
    decreases v, 1, 0, 0
  {
    var ms := v.members;
    var ps := seq(|ms|, i requires 0 <= i < |ms| => Quote(ms[i].name) + ":" + Render(ms[i].value, num));
    var j := Text.Join(ps, ',');
    assert Render(v, num) == "{" + j + "}";
    assert |sh.names| == |Names(ms)| == |ms|;
    if ms == [] {
      assert Render(v, num) + rest == "{}" + rest;
      ObjectEmpty(sh, rest, numOf);
    } else {
      var u := j + "}" + rest;
      assert Render(v, num) + rest == "{" + u;
      assert ps[0..] == ps && ms[0..] == ms;
      ReadMembersRender(sh, v, ps, 0, rest, num, numOf);
      ObjectOpen(sh, u, ms, rest, numOf);
    }
  }

  /** The members from the `k`-th on, then '}', read back as those members. */
  lemma {:induction false} ReadMembersRender(sh: Shape, v: Value, ps: seq<string>, k: nat, rest: string, num: Single -> string, numOf: string -> Option<Single>)
    requires NumberFormat(num, numOf) && v.Object? && Conforms(v, sh) && EndsValue(rest)
    requires RenderedMembers(ps, v.members, num) && k < |ps|
    ensures |sh.names| == |sh.fields|
    ensures ReadMembers(sh, k, Text.Join(ps[k..], ',') + "}" + rest, numOf) == Some((v.members[k..], rest))
    decreases v, 0, |ps| - k, 1
  {
    assert |sh.names| == |Names(v.members)| == |v.members|;
    if k + 1 == |ps| {
      ReadLastMember(sh, v, ps, k, rest, num, numOf);
    } else {
      ReadNextMember(sh, v, ps, k, rest, num, numOf);
    }
  }

  lemma {:induction false} ReadLastMember(sh: Shape, v: Value, ps: seq<string>, k: nat, rest: string, num: Single -> string, numOf: string -> Option<Single>)
    requires NumberFormat(num, numOf) && v.Object? && Conforms(v, sh) && EndsValue(rest)
    requires RenderedMembers(ps, v.members, num) && k + 1 == |ps|
    ensures |sh.names| == |sh.fields|
    ensures ReadMembers(sh, k, Text.Join(ps[k..], ',') + "}" + rest, numOf) == Some((v.members[k..], rest))
    decreases v, 0, 0, 0
  {
    var ms := v.members;
    assert |sh.names| == |Names(ms)| == |ms|;
    var m := ms[k];
    assert sh.names[k] == Names(ms)[k] == m.name;
    var lit := Quote(m.name) + ":";
    var t := Text.Join(ps[k..], ',') + "}" + rest;
    var r := Render(m.value, num);
    var t1 := r + ("}" + rest);
    JoinLast(ps, k, "}", rest);
    assert ps[k] == lit + r;
    Assoc(lit, r, "}" + rest);
    assert t == lit + t1;
    ExpectLiteral(lit, t1);
    ReadRender(sh.fields[k], m.value, "}" + rest, num, numOf);
    MembersLast(sh, k, t, t1, m.value, rest, numOf);
    assert ms[k..] == [Member(sh.names[k], m.value)];
  }

  lemma {:induction false} ReadNextMember(sh: Shape, v: Value, ps: seq<string>, k: nat, rest: string, num: Single -> string, numOf: string -> Option<Single>)
    requires NumberFormat(num, numOf) && v.Object? && Conforms(v, sh) && EndsValue(rest)
    requires RenderedMembers(ps, v.members, num) && k + 1 < |ps|
    ensures |sh.names| == |sh.fields|
    ensures ReadMembers(sh, k, Text.Join(ps[k..], ',') + "}" + rest, numOf) == Some((v.members[k..], rest))
    decreases v, 0, |ps| - k, 0
  {
    var ms := v.members;
    assert |sh.names| == |Names(ms)| == |ms|;
    var m := ms[k];
    assert sh.names[k] == Names(ms)[k] == m.name;
    var lit := Quote(m.name) + ":";
    var t := Text.Join(ps[k..], ',') + "}" + rest;
    var after := Text.Join(ps[k + 1..], ',') + "}" + rest;
    var r := Render(m.value, num);
    var t1 := r + ("," + after);
    JoinNext(ps, k, "}", rest);
    assert ps[k] == lit + r;
    Assoc(lit, r, "," + after);
    assert t == lit + t1;
    ExpectLiteral(lit, t1);
    ReadRender(sh.fields[k], m.value, "," + after, num, numOf);
    ReadMembersRender(sh, v, ps, k + 1, rest, num, numOf);
    MembersNext(sh, k, t, t1, m.value, after, ms[k + 1..], rest, numOf);
    SliceCons(ms, k);
  }

  /** The whole text of a value of shape `sh` reads back as that value. */
  lemma ReadRendered(sh: Shape, v: Value, num: Single -> string, numOf: string -> Option<Single>)
    requires NumberFormat(num, numOf) && Conforms(v, sh)
    ensures Read(sh, Render(v, num), numOf) == Some(v)
  {
    ReadRender(sh, v, [], num, numOf);
    assert Render(v, num) + [] == Render(v, num);
  }

  /** Two values of one shape with the same text are the same value. */
  lemma RenderInjective(sh: Shape, v: Value, w: Value, num: Single -> string, numOf: string -> Option<Single>)
    requires NumberFormat(num, numOf) && Conforms(v, sh) && Conforms(w, sh)
    ensures Render(v, num) == Render(w, num) ==> v == w
  {
    ReadRendered(sh, v, num, numOf);
    ReadRendered(sh, w, num, numOf);
  }
}
