/** Reading a cookie out of the browser's `document.cookie` string
    (task/static/task/js/utils/csrf.js). The string is a `;`-separated list
    of `name=value` pairs with optional spaces around each pair. */
module Cookies {
  import opened Wrappers
  import opened Text

  /** The cookie string cut at every `;`, each piece trimmed. */
  function Pieces(cookies: string): (ps: seq<string>)
    ensures |ps| == |Split(cookies, ';')|
    ensures forall k :: 0 <= k < |ps| ==> ps[k] == Trim(Split(cookies, ';')[k])
  {
    var raw := Split(cookies, ';');
    seq(|raw|, k requires 0 <= k < |raw| => Trim(raw[k]))
  }

  /** A trimmed piece is the cookie `name` when it begins with `name`
      immediately followed by `=`. */
  predicate Matches(piece: string, name: string) {
    StartsWith(piece, name + "=")
  }

  /** The position of the first piece that is the cookie `name`. */
  function FirstMatch(pieces: seq<string>, name: string): (r: Option<nat>)
    ensures r.Some? ==> r.value < |pieces| && Matches(pieces[r.value], name)
    ensures r.Some? ==> forall j :: 0 <= j < r.value ==> !Matches(pieces[j], name)
    ensures r.None? ==> forall j :: 0 <= j < |pieces| ==> !Matches(pieces[j], name)
  {
    if |pieces| == 0 then None
    else if Matches(pieces[0], name) then Some(0)
    else match FirstMatch(pieces[1..], name)
      case None => None
      case Some(i) => Some(i + 1)
  }

  /** The raw (undecoded) value of the first cookie called `name`: what
      follows `name=` in the first trimmed piece that starts with it. */
  function CookieValue(cookies: string, name: string): (r: Option<string>)
    ensures r.None? <==> forall j :: 0 <= j < |Pieces(cookies)| ==> !Matches(Pieces(cookies)[j], name)
    ensures r.Some? ==>
      exists i :: 0 <= i < |Pieces(cookies)| && Pieces(cookies)[i] == name + "=" + r.value
                  && forall j :: 0 <= j < i ==> !Matches(Pieces(cookies)[j], name)
  {
    var pieces := Pieces(cookies);
    match FirstMatch(pieces, name)
    case None => None
    case Some(i) =>
      var v := pieces[i][|name| + 1..];
      PrefixThenRest(pieces[i], name + "=");
      Some(v)
  }

  /** `getCookie(name)`: `null` for an empty cookie string or when no
      cookie is called `name`, otherwise the decoded value of the first one.
      `decodeURIComponent` is passed in as `decode`. */
  function GetCookie(cookies: string, name: string, decode: string -> string): (r: Option<string>)
    ensures cookies == "" ==> r.None?
    ensures r.Some? <==> cookies != "" && CookieValue(cookies, name).Some?
    ensures r.Some? ==> r.value == decode(CookieValue(cookies, name).value)
  {
    if cookies == "" then None
    else match CookieValue(cookies, name)
      case None => None
      case Some(v) => Some(decode(v))
  }

  /** An empty cookie string holds no cookie at all. */
  lemma NoCookiesNoValue(name: string)
    ensures CookieValue("", name).None?
  {
    assert Split("", ';') == [""];
    assert Pieces("")[0] == Trim("") == "";
  }

  const CsrfCookieName: string := "csrftoken"

  /** `getCSRFToken()`: the cookie `csrftoken`. */
  function GetCSRFToken(cookies: string, decode: string -> string): (r: Option<string>)
    ensures r == GetCookie(cookies, CsrfCookieName, decode)
  {
    GetCookie(cookies, CsrfCookieName, decode)
  }

  /** A cookie whose name only begins with the wanted name is not it: the
      character right after the name must be `=`. */
  lemma LongerNameDoesNotMatch(piece: string, name: string, c: char)
    requires c != '='
    requires StartsWith(piece, name + [c])
    ensures !Matches(piece, name)
  {
    assert piece[|name|] == c;
    assert (name + "=")[|name|] == '=';
  }

  /** `CookieValue` reads the value out of the piece `FirstMatch` picks. */
  lemma CookieValueFromFirstMatch(cookies: string, name: string)
    ensures FirstMatch(Pieces(cookies), name).None? ==> CookieValue(cookies, name).None?
    ensures FirstMatch(Pieces(cookies), name).Some? ==>
      var i := FirstMatch(Pieces(cookies), name).value;
      CookieValue(cookies, name) == Some(Pieces(cookies)[i][|name| + 1..])
  {
  }

  lemma {:induction false} PiecesOfPieceThenRest(w: string, rest: string)
    requires ';' !in w
    ensures |Pieces(w + ";" + rest)| == 1 + |Pieces(rest)|
    ensures Pieces(w + ";" + rest)[0] == Trim(w)
    ensures Pieces(w + ";" + rest)[1..] == Pieces(rest)
  {
    SplitPieceThenRest(w, rest, ';');
    var raw := Split(w + ";" + rest, ';');
    var ps := Pieces(w + ";" + rest);
    var tail := Pieces(rest);
    assert raw[0] == w;
    forall k | 0 <= k < |tail| ensures ps[1..][k] == tail[k] {
      assert raw[k + 1] == Split(rest, ';')[k];
    }
  }

  lemma FirstMatchAfterFirst(ps: seq<string>, name: string)
    requires |ps| > 0 && !Matches(ps[0], name)
    ensures FirstMatch(ps, name) ==
      match FirstMatch(ps[1..], name) case None => None case Some(i) => Some(i + 1)
  {
  }

  /** The first piece decides: if it is the cookie, its value is the answer
      and the rest of the string is never looked at; otherwise the answer is
      whatever the rest of the string gives. */
  lemma {:induction false} FirstPieceDecides(w: string, rest: string, name: string)
    requires ';' !in w
    ensures Matches(Trim(w), name) ==> CookieValue(w + ";" + rest, name) == Some(Trim(w)[|name| + 1..])
    ensures !Matches(Trim(w), name) ==> CookieValue(w + ";" + rest, name) == CookieValue(rest, name)
  {
    PiecesOfPieceThenRest(w, rest);
    var ps := Pieces(w + ";" + rest);
    CookieValueFromFirstMatch(w + ";" + rest, name);
    CookieValueFromFirstMatch(rest, name);
    if !Matches(Trim(w), name) {
      FirstMatchAfterFirst(ps, name);
      match FirstMatch(Pieces(rest), name)
      case None =>
      case Some(i) => assert ps[i + 1] == Pieces(rest)[i];
    }
  }

  lemma {:induction false} SinglePieceValue(w: string, name: string)
    requires ';' !in w
    ensures Matches(Trim(w), name) ==> CookieValue(w, name) == Some(Trim(w)[|name| + 1..])
    ensures !Matches(Trim(w), name) ==> CookieValue(w, name).None?
  {
    SplitSinglePiece(w, ';');
    var ps := Pieces(w);
    assert |ps| == 1 && ps[0] == Trim(w);
    assert ps[1..] == [];
    CookieValueFromFirstMatch(w, name);
  }

  lemma NoSeparatorAfterPrefix(prefix: string, a: string)
    requires ';' !in prefix && ';' !in a
    ensures ';' !in prefix + a
  {
    var w := prefix + a;
    forall k | 0 <= k < |w| ensures w[k] != ';' {
      if k >= |prefix| { assert w[k] == a[k - |prefix|]; } else { assert w[k] == prefix[k]; }
    }
  }

  lemma TrimKeepsCore(s: string)
    requires s != [] && !IsWhitespace(s[0]) && !IsWhitespace(s[|s| - 1])
    ensures Trim(s) == s
  {
    assert TrimStart(s) == s;
  }

  lemma ExtendedPieceSkipped(a: string)
    requires ';' !in a
    requires a != [] && !IsWhitespace(a[|a| - 1])
    ensures ';' !in "csrftokenX=" + a
    ensures !Matches(Trim("csrftokenX=" + a), CsrfCookieName)
  {
    var w := "csrftokenX=" + a;
    NoSeparatorAfterPrefix("csrftokenX=", a);
    assert w[0] == 'c' && w[|w| - 1] == a[|a| - 1];
    TrimKeepsCore(w);
    assert StartsWith(w, CsrfCookieName + ['X']);
    LongerNameDoesNotMatch(w, CsrfCookieName, 'X');
  }

  lemma TrimDropsSpace(p: string)
    requires p != [] && !IsWhitespace(p[0]) && !IsWhitespace(p[|p| - 1])
    ensures Trim([' '] + p) == p
  {
    assert ([' '] + p)[1..] == p;
    TrimKeepsCore(p);
  }

  lemma TrimLeadingSpace(b: string)
    requires b != [] && !IsWhitespace(b[|b| - 1])
    ensures Trim(" csrftoken=" + b) == "csrftoken=" + b
  {
    var p := "csrftoken=" + b;
    assert " csrftoken=" + b == [' '] + p;
    assert p[0] == 'c' && p[|p| - 1] == b[|b| - 1];
    TrimDropsSpace(p);
  }

  lemma ValueAfterName(b: string)
    ensures StartsWith("csrftoken=" + b, CsrfCookieName + "=")
    ensures ("csrftoken=" + b)[|CsrfCookieName| + 1..] == b
  {
  }

  lemma WantedPieceFound(b: string)
    requires ';' !in b
    requires b != [] && !IsWhitespace(b[|b| - 1])
    ensures ';' !in " csrftoken=" + b
    ensures CookieValue(" csrftoken=" + b, CsrfCookieName) == Some(b)
  {
    NoSeparatorAfterPrefix(" csrftoken=", b);
    TrimLeadingSpace(b);
    ValueAfterName(b);
    SinglePieceValue(" csrftoken=" + b, CsrfCookieName);
  }

  /** A cookie called `csrftokenX` placed before the `csrftoken` cookie is
      skipped, and the value after `csrftoken=` is found past the space that
      follows the separator. */
  lemma ExtendedNameIsSkipped(a: string, b: string, decode: string -> string)
    requires ';' !in a && ';' !in b
    requires a != [] && !IsWhitespace(a[|a| - 1])
    requires b != [] && !IsWhitespace(b[|b| - 1])
    ensures GetCSRFToken("csrftokenX=" + a + "; csrftoken=" + b, decode) == Some(decode(b))
  {
    var w := "csrftokenX=" + a;
    var rest := " csrftoken=" + b;
    assert "csrftokenX=" + a + "; csrftoken=" + b == w + ";" + rest;
    ExtendedPieceSkipped(a);
    WantedPieceFound(b);
    FirstPieceDecides(w, rest, CsrfCookieName);
  }
}
