/**
 * JSON as far as the link formatting needs it: the values `json.loads` can
 * return, the text `json.dumps` writes for a list of {"url": ...} objects
 * (the fallback of `format_pdf_links`), and a reader that takes that text
 * back apart.
 */
module JsonText {
  import opened Wrappers
  import opened PyStr

  /**
   * A value `json.loads` returns. Numbers, booleans and null are not told
   * apart: the sourcing loop only asks whether a value is a string, a list
   * or an object.
   */
  datatype Json =
    | JString(str: string)
    | JArray(items: seq<Json>)
    | JObject(fields: map<string, Json>)
    | JScalar

  function HexDigit(d: nat): (c: char)
    requires d < 16
    ensures '0' <= c <= '9' || 'a' <= c <= 'f'
  {
    if d < 10 then ('0' as int + d) as char else ('a' as int + d - 10) as char
  }

  /** `'{0:04x}'.format(v)`: four lower-case hexadecimal digits. */
  function Hex4(v: nat): (r: string)
    requires v < 0x1_0000
    ensures |r| == 4
    ensures forall k :: 0 <= k < 4 ==> ' ' <= r[k] <= '~'
  {
    [HexDigit(v / 16 / 16 / 16), HexDigit(v / 16 / 16 % 16), HexDigit(v / 16 % 16), HexDigit(v % 16)]
  }

  /** `\uXXXX` for one UTF-16 code unit. */
  function UnitEscape(v: nat): (r: string)
    requires v < 0x1_0000
    ensures |r| == 6 && r[0] == '\\'
    ensures forall k :: 0 <= k < 6 ==> ' ' <= r[k] <= '~'
  {
    "\\u" + Hex4(v)
  }

  /**
   * What `json.dumps` (with its default `ensure_ascii=True`) writes for one
   * character inside a string literal: the short escapes for the quote, the
   * backslash and five control characters; printable ASCII as it is; any
   * other character below U+10000 as `\uXXXX`; characters above as a
   * surrogate pair.
   */
  function EscapeChar(c: char): (r: string)
    ensures r == [c] <==> ' ' <= c <= '~' && c != '"' && c != '\\'
    ensures r != [c] ==> |r| >= 2 && r[0] == '\\'
    ensures forall k :: 0 <= k < |r| ==> ' ' <= r[k] <= '~'
  {
    if c == '"' then "\\\""
    else if c == '\\' then "\\\\"
    else if c == '\n' then "\\n"
    else if c == '\r' then "\\r"
    else if c == '\t' then "\\t"
    else if c == '\U{8}' then "\\b"
    else if c == '\U{C}' then "\\f"
    else if ' ' <= c <= '~' then [c]
    else if c as int < 0x1_0000 then UnitEscape(c as int)
    else
      var n := c as int - 0x1_0000;
      UnitEscape(0xD800 + n / 0x400) + UnitEscape(0xDC00 + n % 0x400)
  }

  function EscapeBody(s: string): string {
    if s == [] then "" else EscapeChar(s[0]) + EscapeBody(s[1..])
  }

  /** A JSON string literal as `json.dumps` writes it. */
  function Quote(s: string): string {
    "\"" + EscapeBody(s) + "\""
  }

  /** `json.dumps({"url": u})` */
  function UrlObject(u: string): string {
    "{\"url\": " + Quote(u) + "}"
  }

  /** The objects for `links`, separated by ", ": empty for no links, else from '{' to '}'. */
  function UrlObjects(links: seq<string>): (r: string)
    ensures r == "" <==> links == []
    ensures links != [] ==> r[0] == '{'
  {
    if |links| == 0 then ""
    else if |links| == 1 then UrlObject(links[0])
    else UrlObject(links[0]) + ", " + UrlObjects(links[1..])
  }

  /** content_sourcing_updated.py:173, `json.dumps([{"url": url} for url in pdf_links])`. */
  function FallbackJson(links: seq<string>): (r: string)
    ensures |r| >= 2 && r[0] == '[' && r[|r| - 1] == ']'
    ensures r == "[]" <==> links == []
  {
    "[" + UrlObjects(links) + "]"
  }

  // ---------------------------------------------------------------------------
  // Reading the fallback text back

  function HexValue(c: char): (r: Option<nat>)
    ensures r.Some? ==> r.value < 16
  {
    if '0' <= c <= '9' then Some(c as int - '0' as int)
    else if 'a' <= c <= 'f' then Some(c as int - 'a' as int + 10)
    else if 'A' <= c <= 'F' then Some(c as int - 'A' as int + 10)
    else None
  }

  /** The code unit of a `\uXXXX` escape at the start of `s`. */
  function ReadUnit(s: string): (r: Option<nat>)
    ensures r.Some? ==> |s| >= 6 && r.value < 0x1_0000
  {
    if |s| < 6 || s[0] != '\\' || s[1] != 'u' then None
    else
      match (HexValue(s[2]), HexValue(s[3]), HexValue(s[4]), HexValue(s[5]))
      case (Some(a), Some(b), Some(c), Some(d)) => Some(((a * 16 + b) * 16 + c) * 16 + d)
      case _ => None
  }

  /** The character a short escape `\x` stands for. */
  function ShortEscape(x: char): Option<char> {
    if x == '"' then Some('"')
    else if x == '\\' then Some('\\')
    else if x == '/' then Some('/')
    else if x == 'b' then Some('\U{8}')
    else if x == 'f' then Some('\U{C}')
    else if x == 'n' then Some('\n')
    else if x == 'r' then Some('\r')
    else if x == 't' then Some('\t')
    else None
  }

  function Prepend(c: char, r: Option<(string, string)>): Option<(string, string)> {
    match r
    case None => None
    case Some((body, rest)) => Some(([c] + body, rest))
  }

  /**
   * Reads the inside of a JSON string literal up to its closing quote, undoing
   * the escapes; gives the text and what follows the closing quote. Raw
   * control characters, unknown escapes and unpaired surrogates are errors.
   */
  function ReadBody(s: string): (r: Option<(string, string)>)
    ensures r.Some? ==> |r.value.1| < |s|
    decreases |s|
  {
    if s == [] then None
    else if s[0] == '"' then Some(("", s[1..]))
    else if s[0] == '\\' then
      if |s| < 2 then None
      else if s[1] == 'u' then
        match ReadUnit(s)
        case None => None
        case Some(v) =>
          if 0xD800 <= v < 0xDC00 then
            match ReadUnit(s[6..])
            case None => None
            case Some(w) =>
              if 0xDC00 <= w < 0xE000 then
                Prepend((0x1_0000 + (v - 0xD800) * 0x400 + (w - 0xDC00)) as char, ReadBody(s[12..]))
              else None
          else if 0xDC00 <= v < 0xE000 then None
          else Prepend(v as char, ReadBody(s[6..]))
      else
        match ShortEscape(s[1])
        case None => None
        case Some(c) => Prepend(c, ReadBody(s[2..]))
    else if s[0] < ' ' then None
    else Prepend(s[0], ReadBody(s[1..]))
  }

  /** The opening of one object in the fallback text, up to the quote of its url. */
  const ObjectOpen: string := "{\"url\": \""

  /** Reads `{"url": "..."}` objects separated by ", " up to the closing "]", which must end the text. */
  function ReadObjects(s: string): Option<seq<string>>
    decreases |s|
  {
    if !StartsWith(s, ObjectOpen) then None
    else
      match ReadBody(s[|ObjectOpen|..])
      case None => None
      case Some((u, rest)) =>
        if rest == "}]" then Some([u])
        else if StartsWith(rest, "}, ") then
          match ReadObjects(rest[3..])
          case None => None
          case Some(us) => Some([u] + us)
        else None
  }

  /** Reads text of the shape `json.dumps` gives a list of {"url": ...} objects: the urls, in order. */
  function ReadFallback(s: string): Option<seq<string>> {
    if s == "[]" then Some([])
    else if |s| > 0 && s[0] == '[' then ReadObjects(s[1..])
    else None
  }

  // ---------------------------------------------------------------------------
  // Round trip

  lemma HexDigitRoundTrip(d: nat)
    requires d < 16
    ensures HexValue(HexDigit(d)) == Some(d)
  {
  }

  /** The four hexadecimal digits of a code unit read back as that code unit. */
  lemma UnitRoundTrip(v: nat, t: string)
    requires v < 0x1_0000
    ensures ReadUnit(UnitEscape(v) + t) == Some(v)
  {
    var a, b, c, d := v / 16 / 16 / 16, v / 16 / 16 % 16, v / 16 % 16, v % 16;
    HexDigitRoundTrip(a);
    HexDigitRoundTrip(b);
    HexDigitRoundTrip(c);
    HexDigitRoundTrip(d);
    var s := UnitEscape(v) + t;
    assert s[2] == HexDigit(a) && s[3] == HexDigit(b) && s[4] == HexDigit(c) && s[5] == HexDigit(d);
    assert ((a * 16 + b) * 16 + c) * 16 + d == v;
  }

  /** A character written as `\uXXXX` reads back. */
  lemma ReadUnitChar(c: char, t: string)
    requires c as int < 0x1_0000 && !(0xD800 <= c as int < 0xE000)
    ensures ReadBody(UnitEscape(c as int) + t) == Prepend(c, ReadBody(t))
  {
    var s := UnitEscape(c as int) + t;
    UnitRoundTrip(c as int, t);
    assert s[0] == '\\' && s[1] == 'u';
    assert s[6..] == t;
  }

  /** A character above U+FFFF written as a surrogate pair reads back. */
  lemma ReadPairChar(c: char, t: string)
    requires c as int >= 0x1_0000
    ensures var n := c as int - 0x1_0000;
      ReadBody(UnitEscape(0xD800 + n / 0x400) + UnitEscape(0xDC00 + n % 0x400) + t) == Prepend(c, ReadBody(t))
  {
    var n := c as int - 0x1_0000;
    var hi, lo := 0xD800 + n / 0x400, 0xDC00 + n % 0x400;
    var s := UnitEscape(hi) + UnitEscape(lo) + t;
    assert s == UnitEscape(hi) + (UnitEscape(lo) + t);
    UnitRoundTrip(hi, UnitEscape(lo) + t);
    assert s[0] == '\\' && s[1] == 'u';
    assert s[6..] == UnitEscape(lo) + t;
    UnitRoundTrip(lo, t);
    assert s[12..] == t;
    assert 0x1_0000 + (hi - 0xD800) * 0x400 + (lo - 0xDC00) == c as int;
  }

  /** A two-character escape `\x` reads back as the character it stands for. */
  lemma ReadShortEscape(x: char, c: char, t: string)
    requires ShortEscape(x) == Some(c)
    ensures ReadBody(['\\', x] + t) == Prepend(c, ReadBody(t))
  {
    var s := ['\\', x] + t;
    assert x != 'u';
    assert |s| >= 2 && s[0] == '\\' && s[1] == x;
    assert s[2..] == t;
  }

  /** Reading what `EscapeChar` wrote for `c` gives `c` back, then reading goes on with `t`. */
  lemma ReadEscapedChar(c: char, t: string)
    ensures ReadBody(EscapeChar(c) + t) == Prepend(c, ReadBody(t))
  {
    if c == '"' {
      ReadShortEscape('"', c, t);
    } else if c == '\\' {
      ReadShortEscape('\\', c, t);
    } else if c == '\n' {
      ReadShortEscape('n', c, t);
    } else if c == '\r' {
      ReadShortEscape('r', c, t);
    } else if c == '\t' {
      ReadShortEscape('t', c, t);
    } else if c == '\U{8}' {
      ReadShortEscape('b', c, t);
    } else if c == '\U{C}' {
      ReadShortEscape('f', c, t);
    } else if ' ' <= c <= '~' {
      assert ([c] + t)[1..] == t;
    } else if c as int < 0x1_0000 {
      ReadUnitChar(c, t);
    } else {
      ReadPairChar(c, t);
    }
  }

  /** Reading an escaped body followed by the closing quote gives the original text and what follows. */
  lemma {:induction false} ReadQuotedBody(u: string, rest: string)
    ensures ReadBody(EscapeBody(u) + "\"" + rest) == Some((u, rest))
    decreases |u|
  {
    if u == [] {
      assert EscapeBody(u) + "\"" + rest == "\"" + rest;
    } else {
      var e, b := EscapeChar(u[0]), EscapeBody(u[1..]);
      var t := b + "\"" + rest;
      assert EscapeBody(u) == e + b;
      Regroup4(e, b, "\"", rest);
      ReadEscapedChar(u[0], t);
      ReadQuotedBody(u[1..], rest);
      assert [u[0]] + u[1..] == u;
    }
  }

  /** One object: reading stops after the url and looks at what follows the closing brace. */
  lemma ReadOneObject(u: string, tail: string)
    ensures ReadObjects(ObjectOpen + EscapeBody(u) + "\"" + tail) ==
      if tail == "}]" then Some([u])
      else if StartsWith(tail, "}, ") then
        match ReadObjects(tail[3..])
        case None => None
        case Some(us) => Some([u] + us)
      else None
  {
    var s := ObjectOpen + EscapeBody(u) + "\"" + tail;
    assert StartsWith(s, ObjectOpen);
    assert s[|ObjectOpen|..] == EscapeBody(u) + "\"" + tail;
    ReadQuotedBody(u, tail);
  }

  lemma UrlObjectText(u: string)
    ensures UrlObject(u) == ObjectOpen + EscapeBody(u) + "\"}"
  {
    var q := EscapeBody(u);
    assert Quote(u) == "\"" + q + "\"";
    assert ObjectOpen == "{\"url\": " + "\"";
    assert "{\"url\": " + ("\"" + q + "\"") + "}" == ("{\"url\": " + "\"") + q + ("\"" + "}");
  }

  lemma Regroup4(a: string, b: string, c: string, d: string)
    ensures a + b + c + d == a + (b + c + d)
  {
  }

  lemma Regroup(a: string, b: string, c: string, d: string, e: string)
    ensures a + b + c + d + e == a + b + (c + (d + e))
  {
  }

  lemma CloseThenComma(z: string)
    ensures "\"}" + (", " + z) == "\"" + ("}, " + z)
  {
    var a: string := "\"}";
    var b: string := ", ";
    assert a + (b + z) == [a[0], a[1], b[0], b[1]] + z;
  }

  lemma LastObjectShape(u: string)
    ensures UrlObjects([u]) + "]" == ObjectOpen + EscapeBody(u) + "\"" + "}]"
  {
    var close: string := "\"}";
    UrlObjectText(u);
    assert close + "]" == "\"" + "}]";
    Regroup(ObjectOpen, EscapeBody(u), close, "]", "");
  }

  /** Concatenation regrouped, over variables only. */
  lemma Reassociate(o: string, q: string, close: string, comma: string, z: string, quote: string, next: string)
    requires close + (comma + z) == quote + (next + z)
    ensures o + q + close + comma + z == o + q + quote + (next + z)
  {
    assert o + q + close + comma + z == o + q + (close + (comma + z));
  }

  lemma NextObjectShape(links: seq<string>)
    requires |links| > 1
    ensures UrlObjects(links) + "]" ==
      ObjectOpen + EscapeBody(links[0]) + "\"" + ("}, " + (UrlObjects(links[1..]) + "]"))
  {
    var q := EscapeBody(links[0]);
    var rest := UrlObjects(links[1..]);
    var z := rest + "]";
    var obj := UrlObject(links[0]);
    assert UrlObjects(links) == obj + ", " + rest;
    UrlObjectText(links[0]);
    assert UrlObjects(links) + "]" == ObjectOpen + q + "\"}" + ", " + z;
    CloseThenComma(z);
    Reassociate(ObjectOpen, q, "\"}", ", ", z, "\"", "}, ");
  }

  /** The text after an object that another object follows. */
  lemma CommaTail(z: string)
    ensures "}, " + z != "}]"
    ensures StartsWith("}, " + z, "}, ")
    ensures ("}, " + z)[3..] == z
  {
    var t := "}, " + z;
    assert t[1] == ',';
  }

  /** One step of the round trip: the first object is read, then the rest as before. */
  lemma ReadNextObject(links: seq<string>)
    requires |links| > 1
    requires ReadObjects(UrlObjects(links[1..]) + "]") == Some(links[1..])
    ensures ReadObjects(UrlObjects(links) + "]") == Some(links)
  {
    Uncons(links);
    var z := UrlObjects(links[1..]) + "]";
    var tail := "}, " + z;
    NextObjectShape(links);
    CommaTail(z);
    assert ReadObjects(tail[3..]) == Some(links[1..]);
    ReadOneObject(links[0], tail);
  }

  lemma {:induction false} ReadObjectsRoundTrip(links: seq<string>)
    requires links != []
    ensures ReadObjects(UrlObjects(links) + "]") == Some(links)
    decreases |links|
  {
    if |links| == 1 {
      LastObjectShape(links[0]);
      ReadOneObject(links[0], "}]");
      assert links == [links[0]];
    } else {
      ReadObjectsRoundTrip(links[1..]);
      ReadNextObject(links);
    }
  }

  /**
   * The fallback text lists the links in order: reading it back gives exactly
   * the links `format_pdf_links` was given, one {"url": u} object per link.
   */
  lemma FallbackRoundTrip(links: seq<string>)
    ensures ReadFallback(FallbackJson(links)) == Some(links)
  {
    var body := UrlObjects(links) + "]";
    var s := "[" + body;
    assert FallbackJson(links) == s;
    if links != [] {
      ReadObjectsRoundTrip(links);
      assert s[1..] == body;
      assert s[1] == '{';
    }
  }
}
