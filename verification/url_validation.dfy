/**
 * `validate_url` (content_sourcing_updated.py) and the part of Python's
 * `urllib.parse.urlparse` it depends on: whether a scheme is found, and when
 * the parse raises `ValueError`. The parse follows CPython 3.11 `urlsplit`.
 */
module UrlValidation {
  import opened Wrappers
  import opened PyStr

  /** The WHATWG "C0 control or space" characters `urlsplit` strips from the front. */
  predicate IsC0ControlOrSpace(c: char) {
    c <= ' '
  }

  function LStripC0(s: string): (r: string)
    ensures |r| <= |s| && r == s[|s| - |r|..]
    ensures r == [] || !IsC0ControlOrSpace(r[0])
    decreases |s|
  {
    if s != [] && IsC0ControlOrSpace(s[0]) then LStripC0(s[1..]) else s
  }

  /** Tab, carriage return and line feed, which `urlsplit` deletes wherever they occur. */
  predicate IsUnsafe(c: char) {
    c == '\t' || c == '\r' || c == '\n'
  }

  function RemoveUnsafe(s: string): (r: string)
    ensures |r| <= |s|
    ensures forall k :: 0 <= k < |r| ==> !IsUnsafe(r[k]) && r[k] in s
  {
    if s == [] then [] else (if IsUnsafe(s[0]) then [] else [s[0]]) + RemoveUnsafe(s[1..])
  }

  lemma {:induction false} RemoveUnsafeAppend(a: string, b: string)
    ensures RemoveUnsafe(a + b) == RemoveUnsafe(a) + RemoveUnsafe(b)
  {
    if a == [] {
      assert a + b == b;
    } else {
      var keep := if IsUnsafe(a[0]) then [] else [a[0]];
      assert (a + b)[0] == a[0];
      assert (a + b)[1..] == a[1..] + b;
      RemoveUnsafeAppend(a[1..], b);
      calc {
        RemoveUnsafe(a + b);
        keep + RemoveUnsafe(a[1..] + b);
        keep + (RemoveUnsafe(a[1..]) + RemoveUnsafe(b));
        (keep + RemoveUnsafe(a[1..])) + RemoveUnsafe(b);
      }
    }
  }

  lemma {:induction false} RemoveUnsafeSafe(s: string)
    requires forall k :: 0 <= k < |s| ==> !IsUnsafe(s[k])
    ensures RemoveUnsafe(s) == s
  {
    if s != [] {
      RemoveUnsafeSafe(s[1..]);
    }
  }

  /** The text `urlsplit` actually scans for a scheme and a network location. */
  function Prepared(url: string): (r: string)
    ensures forall k :: 0 <= k < |r| ==> !IsUnsafe(r[k]) && r[k] in url
  {
    RemoveUnsafe(LStripC0(url))
  }

  predicate IsAsciiLetter(c: char) {
    ('a' <= c <= 'z') || ('A' <= c <= 'Z')
  }

  /** `urllib.parse.scheme_chars` */
  predicate IsSchemeChar(c: char) {
    IsAsciiLetter(c) || ('0' <= c <= '9') || c == '+' || c == '-' || c == '.'
  }

  /** A prefix `urlsplit` accepts as a scheme: non-empty, an ASCII letter first, scheme characters only. */
  predicate IsScheme(p: string) {
    |p| > 0 && IsAsciiLetter(p[0]) && forall k :: 0 <= k < |p| ==> IsSchemeChar(p[k])
  }

  /**
   * The scheme `urlsplit` reads from prepared text (lower-cased, "" when there
   * is none) and the text after it: the part before the first ':' is the
   * scheme exactly when it is a valid scheme.
   */
  function SplitScheme(s: string): (r: (string, string))
    ensures r.0 != "" <==> Find(s, ':') < |s| && IsScheme(s[..Find(s, ':')])
    ensures r.0 == "" ==> r.1 == s
  {
    var i := Find(s, ':');
    if i < |s| && IsScheme(s[..i]) then (Lower(s[..i]), s[i + 1..]) else ("", s)
  }

  /** Position of the first '/', '?' or '#' in `s`, or `|s|`. */
  function NetlocEnd(s: string): (i: nat)
    ensures i <= |s|
    ensures '/' !in s[..i] && '?' !in s[..i] && '#' !in s[..i]
    ensures i < |s| ==> s[i] == '/' || s[i] == '?' || s[i] == '#'
  {
    if s == [] || s[0] == '/' || s[0] == '?' || s[0] == '#' then 0 else 1 + NetlocEnd(s[1..])
  }

  /** `_splitnetloc(rest, 2)` when `rest` starts with "//"; None when there is no network location. */
  function Netloc(rest: string): (r: Option<string>)
    ensures r.Some? <==> StartsWith(rest, "//")
    ensures r.Some? ==> '/' !in r.value && '?' !in r.value && '#' !in r.value
  {
    if StartsWith(rest, "//") then Some(rest[2..][..NetlocEnd(rest[2..])]) else None
  }

  /** `urlsplit` raises ValueError("Invalid IPv6 URL"): the network location holds '[' or ']' but not both. */
  predicate SplitFails(url: string)
    ensures SplitFails(url) ==> '[' in url || ']' in url
  {
    var n := Netloc(SplitScheme(Prepared(url)).1);
    n.Some? && (('[' in n.value) != (']' in n.value))
  }

  /** `url` has a scheme, as `urlsplit` reads it before its network-location check. */
  predicate HasScheme(url: string)
    ensures HasScheme(url) ==> ':' in url
  {
    SplitScheme(Prepared(url)).0 != ""
  }

  /**
   * Lines 70-72: strip the surrounding whitespace, then drop one trailing ')'
   * (only one: an input ending in "))" keeps the other).
   */
  function Clean(url: string): (r: string)
    ensures EndsWith(Strip(url), ")") ==> r + ")" == Strip(url)
    ensures !EndsWith(Strip(url), ")") ==> r == Strip(url)
    ensures EndsWith(Strip(url), "))") ==> EndsWith(r, ")")
  {
    var s := Strip(url);
    if EndsWith(s, ")") then
      var r := s[..|s| - 1];
      assert r + ")" == s by {
        assert s[|s| - 1] == ')';
      }
      assert EndsWith(s, "))") ==> r[|r| - 1] == ')' by {
        if EndsWith(s, "))") {
          assert s[|s| - 2..] == "))";
          assert s[|s| - 2] == ')';
        }
      }
      r
    else s
  }

  lemma HttpsNotStripped(c: string)
    ensures LStripC0("https://" + c) == "https://" + c
  {
    assert ("https://" + c)[0] == 'h';
  }

  lemma HttpsSafe()
    ensures RemoveUnsafe("https://") == "https://"
  {
    var h := "https://";
    assert forall k :: 0 <= k < |h| ==> !IsUnsafe(h[k]);
    RemoveUnsafeSafe(h);
  }

  /** Preparing a URL that starts with "https://" keeps that prefix. */
  lemma PreparedHttps(c: string)
    ensures Prepared("https://" + c) == "https://" + RemoveUnsafe(c)
  {
    HttpsNotStripped(c);
    RemoveUnsafeAppend("https://", c);
    HttpsSafe();
  }

  /** Text that starts with "https:" is read with the scheme "https". */
  lemma HttpsSchemeFound(p: string)
    requires |p| >= 6 && p[..6] == "https:"
    ensures SplitScheme(p).0 != ""
  {
    var i := Find(p, ':');
    assert p[5] == ':';
    assert p[0] != ':' && p[1] != ':' && p[2] != ':' && p[3] != ':' && p[4] != ':';
    assert i == 5;
    assert p[..i] == "https";
    assert IsScheme("https");
  }

  /** A URL that starts with "https://" always has a scheme. */
  lemma HttpsHasScheme(c: string)
    ensures HasScheme("https://" + c)
  {
    PreparedHttps(c);
    var p := Prepared("https://" + c);
    assert p[..6] == "https:";
    HttpsSchemeFound(p);
  }

  /**
   * `validate_url` (lines 68-80): "" exactly when `urlparse` raises on the
   * cleaned text; otherwise the cleaned text when it has a scheme, and the
   * cleaned text behind "https://" when it has none. Every non-empty result
   * has a scheme; a blank input becomes "https://".
   */
  function ValidateUrl(url: string): (r: string)
    ensures r == "" <==> SplitFails(Clean(url))
    ensures r != "" ==> HasScheme(r)
    ensures r != "" && HasScheme(Clean(url)) ==> r == Clean(url)
    ensures r != "" && !HasScheme(Clean(url)) ==> r == "https://" + Clean(url)
    ensures Strip(url) == "" ==> r == "https://"
  {
    var c := Clean(url);
    if SplitFails(c) then ""
    else if HasScheme(c) then c
    else
      HttpsHasScheme(c);
      "https://" + c
  }

  /** "a]b" is left as it is by cleaning and by `urlsplit`'s preparation. */
  lemma BracketPrepared()
    ensures Clean("a]b") == "a]b" && Prepared("a]b") == "a]b"
  {
    var u := "a]b";
    StripTrimmed(u);
    assert LStripC0(u) == u;
    RemoveUnsafeSafe(u);
  }

  lemma BracketSplit()
    ensures SplitScheme("a]b") == ("", "a]b") && Netloc("a]b").None?
  {
    var u := "a]b";
    assert Find(u, ':') == 3 by {
      assert u[0] != ':' && u[1] != ':' && u[2] != ':';
    }
    assert u[..2][0] == 'a';
  }

  /** "a]b" has no scheme and no network location, so it is accepted behind "https://". */
  lemma BracketAccepted()
    ensures ValidateUrl("a]b") == "https://" + "a]b"
  {
    BracketPrepared();
    BracketSplit();
    assert !SplitFails("a]b") && !HasScheme("a]b");
  }

  lemma HttpsBracketPrepared()
    ensures Clean("https://" + "a]b") == "https://" + "a]b"
    ensures Prepared("https://" + "a]b") == "https://" + "a]b"
  {
    var v := "https://" + "a]b";
    StripTrimmed(v);
    PreparedHttps("a]b");
    RemoveUnsafeSafe("a]b");
  }

  lemma HttpsBracketSplit()
    ensures SplitScheme("https://" + "a]b").1 == "//a]b"
  {
    var v := "https://" + "a]b";
    HttpsSchemeFound(v);
    assert Find(v, ':') == 5;
    assert v[6..] == "//" + "a]b";
  }

  lemma BracketNetloc()
    ensures Netloc("//a]b") == Some("a]b")
  {
    var rest := "//a]b";
    assert StartsWith(rest, "//");
    assert rest[2..] == "a]b";
    assert NetlocEnd("a]b") == 3 by {
      assert NetlocEnd("a]b"[1..]) == 2;
    }
    assert "a]b"[..3] == "a]b";
  }

  lemma LoneBracket()
    ensures ']' in "a]b" && '[' !in "a]b"
  {
    var h := "a]b";
    assert h[1] == ']';
    assert h == ['a', ']', 'b'];
  }

  lemma Rejected(url: string)
    requires SplitFails(Clean(url))
    ensures ValidateUrl(url) == ""
  {
  }

  /** With "https://" in front, the same "]" is unbalanced in the network location. */
  lemma BracketRejected()
    ensures ValidateUrl("https://" + "a]b") == ""
  {
    var v := "https://" + "a]b";
    HttpsBracketPrepared();
    HttpsBracketSplit();
    BracketNetloc();
    var n := Netloc(SplitScheme(Prepared(v)).1);
    assert n == Some("a]b");
    LoneBracket();
    assert SplitFails(v);
    assert Clean(v) == v;
    Rejected(v);
  }

  /**
   * `validate_url` is not idempotent: a URL it accepts can be rejected when
   * it is validated a second time.
   */
  lemma RevalidationRejects()
    ensures ValidateUrl("a]b") == "https://" + "a]b"
    ensures ValidateUrl(ValidateUrl("a]b")) == ""
  {
    BracketAccepted();
    BracketRejected();
  }
}
