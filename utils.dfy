/**
 * The string helpers of src/utils/utils.cpp: cookie extraction, HTML
 * escaping, URL decoding, the splitting of a form body into fields and the
 * e-mail shape check. The legacy utils.cpp holds the same helpers character
 * for character, and index.cpp the same urlDecode, so these definitions model
 * all three copies.
 */
module Utils {
  import opened Common

  // ---------------------------------------------------------------------------
  // getCookieValue
  // ---------------------------------------------------------------------------

  /** `v` is the text of `s` from `start` up to, not including, the next ';' or the end. */
  predicate ValueRunsFrom(s: string, start: nat, v: string)
  {
    && start + |v| <= |s|
    && s[start..start + |v|] == v
    && ';' !in v
    && (start + |v| == |s| || s[start + |v|] == ';')
  }

  /** `pat` occurs at `p` and nowhere before. */
  predicate FirstOccurrence(s: string, pat: string, p: nat)
  {
    OccursAt(s, pat, p) && forall q :: 0 <= q < p ==> !OccursAt(s, pat, q)
  }

  /**
   * The value of cookie `name` in a Cookie header: the text after the first
   * occurrence of `name=` up to the next ';' or the end; "" when `name=`
   * occurs nowhere.
   */
  function GetCookieValue(cookies: string, name: string): (r: string)
    ensures (forall p: nat :: p <= |cookies| ==> !OccursAt(cookies, name + "=", p)) ==> r == ""
    ensures forall p: nat :: FirstOccurrence(cookies, name + "=", p) ==>
                          ValueRunsFrom(cookies, p + |name| + 1, r)
    ensures ';' !in r
  {
    match FindSub(cookies, name + "=", 0)
    case None => ""
    case Some(p) =>
      var start := p + |name| + 1;
      var end := match Find(cookies, ';', start)
                 case None => |cookies|
                 case Some(e) => e;
      assert forall k :: start <= k < end ==> cookies[k] != ';';
      cookies[start..end]
  }

  /** The example of src/utils/utils.hpp. */
  lemma CookieExample()
    ensures GetCookieValue("session_token=abc; theme=dark", "session_token") == "abc"
  {
    var pat := "session_token=";
    var c := pat + "abc" + "; theme=dark";
    assert c == "session_token=abc; theme=dark";
    assert "session_token" + "=" == pat;
    assert c[0..14] == pat;
    assert FindSub(c, pat, 0) == Some(0);
    assert Find(c, ';', 17) == Some(17);
    assert Find(c, ';', 16) == Some(17);
    assert Find(c, ';', 15) == Some(17);
    assert Find(c, ';', 14) == Some(17);
    assert c[14..17] == "abc";
  }

  /**
   * The name is matched anywhere in the header, not only at the start of a
   * cookie: a cookie whose name merely ends in `session_token` and comes
   * first shadows the real one.
   */
  lemma CookieNameMatchedAsSubstring()
    ensures GetCookieValue("xsession_token=1; session_token=2", "session_token") == "1"
  {
    var pat := "session_token=";
    var c := "x" + pat + "1" + "; " + pat + "2";
    assert c == "xsession_token=1; session_token=2";
    assert "session_token" + "=" == pat;
    assert c[0..14] != pat by { assert c[0..14][0] == 'x'; }
    assert c[1..15] == pat;
    assert FindSub(c, pat, 1) == Some(1);
    assert FindSub(c, pat, 0) == Some(1);
    assert Find(c, ';', 16) == Some(16);
    assert Find(c, ';', 15) == Some(16);
    assert c[15..16] == "1";
  }

  // ---------------------------------------------------------------------------
  // htmlEscape
  // ---------------------------------------------------------------------------

  /** The replacement htmlEscape writes for one character. */
  function EscapeChar(c: char): string
  {
    match c
    case '&' => "&amp;"
    case '<' => "&lt;"
    case '>' => "&gt;"
    case '"' => "&quot;"
    case '\'' => "&#x27;"
    case _ => [c]
  }

  /** Every character replaced by its escape, in order. */
  function Escaped(s: string): string
  {
    if s == [] then [] else EscapeChar(s[0]) + Escaped(s[1..])
  }

  /** htmlEscape: the loop appends the escape of each character to `out`. */
  method HtmlEscape(s: string) returns (out: string)
    ensures out == Escaped(s)
  {
    out := "";
    for i := 0 to |s|
      invariant out == Escaped(s[..i])
    {
      var c := s[i];
      match c {
        case '&' => out := out + "&amp;";
        case '<' => out := out + "&lt;";
        case '>' => out := out + "&gt;";
        case '"' => out := out + "&quot;";
        case '\'' => out := out + "&#x27;";
        case _ => out := out + [c];
      }
      EscapedConcat(s[..i], [c]);
      assert s[..i + 1] == s[..i] + [c];
    }
    assert s[..|s|] == s;
  }

  /** Escaping works character by character: it distributes over concatenation. */
  lemma {:induction false} EscapedConcat(a: string, b: string)
    ensures Escaped(a + b) == Escaped(a) + Escaped(b)
  {
    if a != [] {
      assert (a + b)[1..] == a[1..] + b;
      EscapedConcat(a[1..], b);
    } else {
      assert a + b == b;
    }
  }

  predicate HtmlSpecial(c: char)
  {
    c == '&' || c == '<' || c == '>' || c == '"' || c == '\''
  }

  lemma EscapeCharSafe(c: char)
    ensures '<' !in EscapeChar(c) && '>' !in EscapeChar(c)
    ensures '"' !in EscapeChar(c) && '\'' !in EscapeChar(c)
    ensures |EscapeChar(c)| >= 1
    ensures !HtmlSpecial(c) ==> EscapeChar(c) == [c]
  {
  }

  /** Escaped text holds no raw '<', '>', '"' or '\''. */
  lemma {:induction false} EscapedHasNoRawSpecials(s: string)
    ensures '<' !in Escaped(s) && '>' !in Escaped(s)
    ensures '"' !in Escaped(s) && '\'' !in Escaped(s)
  {
    if s != [] {
      EscapeCharSafe(s[0]);
      EscapedHasNoRawSpecials(s[1..]);
    }
  }

  /** Escaping never shortens the text. */
  lemma {:induction false} EscapedNotShorter(s: string)
    ensures |Escaped(s)| >= |s|
  {
    if s != [] {
      EscapeCharSafe(s[0]);
      EscapedNotShorter(s[1..]);
    }
  }

  /** Text without any of the five special characters is returned unchanged. */
  lemma {:induction false} EscapedPlain(s: string)
    requires forall i :: 0 <= i < |s| ==> !HtmlSpecial(s[i])
    ensures Escaped(s) == s
  {
    if s != [] {
      EscapeCharSafe(s[0]);
      assert forall i :: 0 <= i < |s[1..]| ==> !HtmlSpecial(s[1..][i]) by {
        forall i | 0 <= i < |s[1..]| ensures !HtmlSpecial(s[1..][i]) {
          assert s[1..][i] == s[i + 1];
        }
      }
      EscapedPlain(s[1..]);
      assert s == [s[0]] + s[1..];
    }
  }

  /** Reads the five entities back; any other character stands for itself. */
  function Unescape(t: string): string
    decreases |t|
  {
    if t == [] then []
    else if HasPrefix(t, "&amp;") then "&" + Unescape(t[5..])
    else if HasPrefix(t, "&lt;") then "<" + Unescape(t[4..])
    else if HasPrefix(t, "&gt;") then ">" + Unescape(t[4..])
    else if HasPrefix(t, "&quot;") then "\"" + Unescape(t[6..])
    else if HasPrefix(t, "&#x27;") then "'" + Unescape(t[6..])
    else [t[0]] + Unescape(t[1..])
  }

  lemma UnescapeStep(c: char, rest: string)
    ensures Unescape(EscapeChar(c) + rest) == [c] + Unescape(rest)
  {
    var t := EscapeChar(c) + rest;
    if c == '&' {
      assert HasPrefix(t, "&amp;") && t[5..] == rest;
    } else if c == '<' {
      assert !HasPrefix(t, "&amp;") by { assert t[1] == 'l'; }
      assert HasPrefix(t, "&lt;") && t[4..] == rest;
    } else if c == '>' {
      assert !HasPrefix(t, "&amp;") by { assert t[1] == 'g'; }
      assert !HasPrefix(t, "&lt;") by { assert t[1] == 'g'; }
      assert HasPrefix(t, "&gt;") && t[4..] == rest;
    } else if c == '"' {
      assert !HasPrefix(t, "&amp;") by { assert t[1] == 'q'; }
      assert !HasPrefix(t, "&lt;") by { assert t[1] == 'q'; }
      assert !HasPrefix(t, "&gt;") by { assert t[1] == 'q'; }
      assert HasPrefix(t, "&quot;") && t[6..] == rest;
    } else if c == '\'' {
      assert !HasPrefix(t, "&amp;") by { assert t[1] == '#'; }
      assert !HasPrefix(t, "&lt;") by { assert t[1] == '#'; }
      assert !HasPrefix(t, "&gt;") by { assert t[1] == '#'; }
      assert !HasPrefix(t, "&quot;") by { assert t[1] == '#'; }
      assert HasPrefix(t, "&#x27;") && t[6..] == rest;
    } else {
      assert t[0] == c && t[1..] == rest;
      assert !HasPrefix(t, "&amp;") && !HasPrefix(t, "&lt;") && !HasPrefix(t, "&gt;");
      assert !HasPrefix(t, "&quot;") && !HasPrefix(t, "&#x27;");
    }
  }

  /** Escaping loses nothing: reading the entities back gives the original text. */
  lemma {:induction false} UnescapeEscaped(s: string)
    ensures Unescape(Escaped(s)) == s
  {
    if s != [] {
      UnescapeStep(s[0], Escaped(s[1..]));
      UnescapeEscaped(s[1..]);
    }
  }

  // ---------------------------------------------------------------------------
  // urlDecode
  // ---------------------------------------------------------------------------

  predicate IsHexDigit(c: char)
  {
    '0' <= c <= '9' || 'a' <= c <= 'f' || 'A' <= c <= 'F'
  }

  function HexValue(c: char): (v: nat)
    requires IsHexDigit(c)
    ensures v < 16
  {
    if '0' <= c <= '9' then (c as int) - 48
    else if 'a' <= c <= 'f' then (c as int) - 87
    else (c as int) - 55
  }

  /**
   * What sscanf("%x") reads from the two characters after a '%': both digits
   * when both are hexadecimal, only the first when the second is not.
   */
  function EscapeValue(hi: char, lo: char): (v: nat)
    requires IsHexDigit(hi)
    ensures v < 256
  {
    if IsHexDigit(lo) then 16 * HexValue(hi) + HexValue(lo) else HexValue(hi)
  }

  /**
   * Every '%' that urlDecode treats as an escape (one with at least two
   * characters after it) is followed by a hexadecimal digit. This leaves out
   * two kinds of input. On some, sscanf("%x") leaves the value unset and the
   * C++ behaviour is undefined: the first character is not a hexadecimal
   * digit, white space or a sign, or a sign or space is followed by a
   * character that is not a hexadecimal digit. On others the result is well
   * defined but not modelled: "% 5" and "%+5" give the byte 5 and "%-1" the
   * byte 0xFF, since %x skips white space and accepts a sign. Neither kind
   * arises from a browser's form encoding.
   */
  predicate Decodable(s: string)
    decreases |s|
  {
    if |s| == 0 then true
    else if s[0] == '%' && |s| >= 3 then IsHexDigit(s[1]) && Decodable(s[3..])
    else Decodable(s[1..])
  }

  /** urlDecode, one step at a time from the left. */
  function UrlDecoded(s: string): string
    requires Decodable(s)
    decreases |s|
  {
    if |s| == 0 then []
    else if s[0] == '+' then " " + UrlDecoded(s[1..])
    else if s[0] == '%' && |s| >= 3 then [EscapeValue(s[1], s[2]) as char] + UrlDecoded(s[3..])
    else [s[0]] + UrlDecoded(s[1..])
  }

  /** One step of urlDecode at index `i`: the three cases of the loop body. */
  lemma DecodeStep(s: string, i: nat)
    requires i < |s| && Decodable(s[i..])
    ensures s[i] == '+' ==> Decodable(s[i + 1..]) && UrlDecoded(s[i..]) == " " + UrlDecoded(s[i + 1..])
    ensures s[i] == '%' && i + 2 < |s| ==>
              && IsHexDigit(s[i + 1]) && Decodable(s[i + 3..])
              && UrlDecoded(s[i..]) == [EscapeValue(s[i + 1], s[i + 2]) as char] + UrlDecoded(s[i + 3..])
    ensures s[i] != '+' && !(s[i] == '%' && i + 2 < |s|) ==>
              Decodable(s[i + 1..]) && UrlDecoded(s[i..]) == [s[i]] + UrlDecoded(s[i + 1..])
  {
    var r := s[i..];
    assert r[0] == s[i] && r[1..] == s[i + 1..];
    if |r| >= 3 {
      assert r[1] == s[i + 1] && r[2] == s[i + 2] && r[3..] == s[i + 3..];
    }
  }

  lemma AppendAssoc<T>(a: seq<T>, b: seq<T>, c: seq<T>)
    ensures a + (b + c) == (a + b) + c
  {
  }

  /** urlDecode: a loop over `i` that skips the two digits of an escape. */
  method UrlDecode(str: string) returns (result: string)
    requires Decodable(str)
    ensures result == UrlDecoded(str)
  {
    result := "";
    var i := 0;
    assert str[0..] == str;
    while i < |str|
      invariant 0 <= i <= |str|
      invariant Decodable(str[i..])
      invariant result + UrlDecoded(str[i..]) == UrlDecoded(str)
    {
      DecodeStep(str, i);
      var piece;
      if str[i] == '+' {
        piece := " ";
      } else if str[i] == '%' && i + 2 < |str| {
        var value := EscapeValue(str[i + 1], str[i + 2]);
        piece := [value as char];
        i := i + 2;
      } else {
        piece := [str[i]];
      }
      AppendAssoc(result, piece, UrlDecoded(str[i + 1..]));
      result := result + piece;
      i := i + 1;
    }
  }

  /** Decoding never lengthens the text. */
  lemma {:induction false} UrlDecodedNotLonger(s: string)
    requires Decodable(s)
    ensures |UrlDecoded(s)| <= |s|
    decreases |s|
  {
    if |s| > 0 {
      if s[0] == '%' && |s| >= 3 {
        UrlDecodedNotLonger(s[3..]);
      } else {
        UrlDecodedNotLonger(s[1..]);
      }
    }
  }

  /** Text with no '+' and no '%' decodes to itself. */
  lemma {:induction false} UrlDecodedPlain(s: string)
    requires '+' !in s && '%' !in s
    ensures Decodable(s) && UrlDecoded(s) == s
    decreases |s|
  {
    if |s| > 0 {
      assert '+' !in s[1..] && '%' !in s[1..] by {
        forall c | c in s[1..] ensures c in s { }
      }
      UrlDecodedPlain(s[1..]);
    }
  }

  /** A '%' with fewer than two characters after it is kept as it is. */
  lemma ShortEscapeKept(t: string)
    requires |t| <= 1 && '+' !in t && '%' !in t
    ensures Decodable("%" + t) && UrlDecoded("%" + t) == "%" + t
  {
    UrlDecodedPlain(t);
    assert ("%" + t)[1..] == t;
  }

  /** Two hexadecimal digits after '%' decode to the byte they spell. */
  lemma EscapeDecoded(hi: char, lo: char, rest: string)
    requires IsHexDigit(hi) && IsHexDigit(lo) && Decodable(rest)
    ensures Decodable(['%', hi, lo] + rest)
    ensures UrlDecoded(['%', hi, lo] + rest) == [(16 * HexValue(hi) + HexValue(lo)) as char] + UrlDecoded(rest)
  {
    assert (['%', hi, lo] + rest)[3..] == rest;
  }

  // The form encoding of the WHATWG URL Standard (section 5.2, the
  // application/x-www-form-urlencoded serializer), which browsers apply to the
  // fields urlDecode receives: ' ' becomes '+', the bytes 0-9 A-Z a-z * - . _
  // stay, every other byte becomes '%' and two upper-case hexadecimal digits.

  predicate Unreserved(c: char)
  {
    '0' <= c <= '9' || 'a' <= c <= 'z' || 'A' <= c <= 'Z' || c == '*' || c == '-' || c == '.' || c == '_'
  }

  predicate IsByteString(s: string)
  {
    forall i :: 0 <= i < |s| ==> (s[i] as int) < 256
  }

  function HexDigitUpper(d: nat): (c: char)
    requires d < 16
    ensures IsHexDigit(c) && HexValue(c) == d
  {
    if d < 10 then (48 + d) as char else (55 + d) as char
  }

  function FormEncodeChar(c: char): string
    requires (c as int) < 256
  {
    if c == ' ' then "+"
    else if Unreserved(c) then [c]
    else ['%', HexDigitUpper(c as int / 16), HexDigitUpper(c as int % 16)]
  }

  function FormEncoded(s: string): string
    requires IsByteString(s)
  {
    if s == [] then [] else FormEncodeChar(s[0]) + FormEncoded(s[1..])
  }

  /** urlDecode undoes the browser's form encoding of any byte string. */
  lemma {:induction false} UrlDecodeInvertsFormEncoding(s: string)
    requires IsByteString(s)
    ensures Decodable(FormEncoded(s)) && UrlDecoded(FormEncoded(s)) == s
  {
    if s != [] {
      var c, rest := s[0], FormEncoded(s[1..]);
      UrlDecodeInvertsFormEncoding(s[1..]);
      var t := FormEncodeChar(c) + rest;
      assert FormEncoded(s) == t;
      if c == ' ' {
        assert t[1..] == rest;
      } else if Unreserved(c) {
        assert t[1..] == rest;
      } else {
        var hi, lo := HexDigitUpper(c as int / 16), HexDigitUpper(c as int % 16);
        EscapeDecoded(hi, lo, rest);
        assert t == ['%', hi, lo] + rest;
        assert ((16 * HexValue(hi) + HexValue(lo)) as char) == c;
      }
    }
  }

  // ---------------------------------------------------------------------------
  // The field split of parsePostData
  // ---------------------------------------------------------------------------

  /**
   * The pieces std::getline(ss, pair, '&') reads from `body[pos..]`: the text
   * between separators, in order; an '&' at the very end yields no empty
   * last piece.
   */
  function Pieces(body: string, pos: nat): seq<string>
    decreases |body| - pos
  {
    if pos >= |body| then []
    else match Find(body, '&', pos)
      case None => [body[pos..]]
      case Some(a) => [body[pos..a]] + Pieces(body, a + 1)
  }

  /** No piece holds the separator. */
  lemma {:induction false} PiecesHaveNoSeparator(body: string, pos: nat)
    ensures forall i :: 0 <= i < |Pieces(body, pos)| ==> '&' !in Pieces(body, pos)[i]
    decreases |body| - pos
  {
    if pos < |body| {
      match Find(body, '&', pos)
      case None =>
        assert forall k :: 0 <= k < |body[pos..]| ==> body[pos..][k] == body[pos + k];
      case Some(a) =>
        PiecesHaveNoSeparator(body, a + 1);
        assert forall k :: 0 <= k < |body[pos..a]| ==> body[pos..a][k] == body[pos + k];
    }
  }

  /** The separators and pieces together make up the body. */
  function Joined(ps: seq<string>): string
  {
    if ps == [] then [] else if |ps| == 1 then ps[0] else ps[0] + "&" + Joined(ps[1..])
  }

  /**
   * `ps` joined with '&' gives `whole`, or `whole` less one trailing '&';
   * exactly `whole` when `whole` does not end in '&'.
   */
  predicate JoinsBack(ps: seq<string>, whole: string)
  {
    && (Joined(ps) == whole || Joined(ps) + "&" == whole)
    && (whole != [] && whole[|whole| - 1] != '&' ==> Joined(ps) == whole)
  }

  /**
   * Splitting loses nothing: joining the pieces with '&' gives the body back,
   * except for one trailing '&', which yields no piece.
   */
  lemma {:induction false} PiecesJoin(body: string, pos: nat)
    requires pos <= |body|
    ensures JoinsBack(Pieces(body, pos), body[pos..])
    decreases |body| - pos
  {
    if pos < |body| {
      match Find(body, '&', pos)
      case None =>
        var last := body[pos..];
        assert Pieces(body, pos) == [last];
        assert Joined([last]) == last;
      case Some(a) =>
        PiecesJoin(body, a + 1);
        PiecesJoinAt(body, pos, a);
    }
  }

  /** The step of PiecesJoin at a separator `a`, given the claim for the rest. */
  lemma PiecesJoinAt(body: string, pos: nat, a: nat)
    requires pos < |body| && Find(body, '&', pos) == Some(a)
    requires JoinsBack(Pieces(body, a + 1), body[a + 1..])
    ensures JoinsBack(Pieces(body, pos), body[pos..])
  {
    var ps, rest := Pieces(body, a + 1), body[a + 1..];
    PiecesAtSeparator(body, pos, a);
    SplitAtSeparator(body, pos, a);
    PiecesEmpty(body, a + 1);
    JoinStep(body[pos..a], ps, Pieces(body, pos), rest, body[pos..]);
  }

  /** At a separator `a`, the pieces are the head and the pieces after `a`. */
  lemma PiecesAtSeparator(body: string, pos: nat, a: nat)
    requires pos < |body| && Find(body, '&', pos) == Some(a)
    ensures Pieces(body, pos) == [body[pos..a]] + Pieces(body, a + 1)
  {
  }

  /** At a separator `a`, the body is the head, the '&' and the rest. */
  lemma SplitAtSeparator(body: string, pos: nat, a: nat)
    requires pos <= a < |body| && body[a] == '&'
    ensures body[pos..] == body[pos..a] + "&" + body[a + 1..]
  {
    SliceAround(body, pos, a);
  }

  /** A suffix is the text before index `j`, the element at `j` and the text after. */
  lemma SliceAround<T>(s: seq<T>, i: nat, j: nat)
    requires i <= j < |s|
    ensures s[i..] == s[i..j] + [s[j]] + s[j + 1..]
  {
    assert s[i..] == s[i..j] + s[j..];
    assert s[j..] == [s[j]] + s[j + 1..];
  }

  /** A suffix yields no pieces exactly when it is empty. */
  lemma PiecesEmpty(body: string, pos: nat)
    ensures Pieces(body, pos) == [] <==> pos >= |body|
  {
  }

  /** Joining one more piece in front, with the separator between. */
  lemma JoinStep(head: string, ps: seq<string>, all: seq<string>, rest: string, whole: string)
    requires all == [head] + ps && whole == head + "&" + rest
    requires ps == [] <==> rest == []
    requires JoinsBack(ps, rest)
    ensures JoinsBack(all, whole)
  {
    if ps == [] {
      assert all == [head];
      assert whole == head + "&";
    } else {
      JoinedCons(head, ps);
      assert whole[|whole| - 1] == rest[|rest| - 1];
      if Joined(ps) + "&" == rest {
        assert Joined(all) + "&" == head + "&" + (Joined(ps) + "&");
      }
    }
  }

  lemma JoinedCons(head: string, ps: seq<string>)
    requires ps != []
    ensures Joined([head] + ps) == head + "&" + Joined(ps)
  {
    assert ([head] + ps)[1..] == ps;
  }

  /** The key of a piece (the text before its first '='), if it has one. */
  function KeyOf(piece: string): Option<string>
  {
    match Find(piece, '=', 0)
    case None => None
    case Some(e) => Some(piece[..e])
  }

  /** The value of a piece that has a key can be decoded. */
  predicate ValueDecodable(piece: string)
  {
    match Find(piece, '=', 0)
    case None => true
    case Some(e) => Decodable(piece[e + 1..])
  }

  predicate AllDecodable(ps: seq<string>)
  {
    forall i :: 0 <= i < |ps| ==> ValueDecodable(ps[i])
  }

  /** The decoded value of a piece that has a key. */
  function ValueOf(piece: string): string
    requires KeyOf(piece).Some? && ValueDecodable(piece)
  {
    var e := Find(piece, '=', 0).value;
    UrlDecoded(piece[e + 1..])
  }

  /** One step of the loop: a piece with a key stores its decoded value under it. */
  function AddField(m: map<string, string>, piece: string): map<string, string>
    requires ValueDecodable(piece)
  {
    match KeyOf(piece)
    case None => m
    case Some(k) => m[k := ValueOf(piece)]
  }

  function FoldFields(m: map<string, string>, ps: seq<string>): map<string, string>
    requires AllDecodable(ps)
    decreases |ps|
  {
    if ps == [] then m else FoldFields(AddField(m, ps[0]), ps[1..])
  }

  /** Every value of the body can be decoded. */
  predicate BodyDecodable(body: string)
  {
    AllDecodable(Pieces(body, 0))
  }

  /** The fields parsePostData returns for a request body. */
  function FormFields(body: string): map<string, string>
    requires BodyDecodable(body)
  {
    FoldFields(map[], Pieces(body, 0))
  }

  /** The loop's next pair starts the pieces from `pos`, and folding it first changes nothing. */
  lemma FieldsStep(body: string, pos: nat, pair: string, next: nat, data: map<string, string>)
    requires pos < |body|
    requires Find(body, '&', pos).None? ==> pair == body[pos..] && next == |body|
    requires Find(body, '&', pos).Some? ==> pair == body[pos..Find(body, '&', pos).value] && next == Find(body, '&', pos).value + 1
    requires AllDecodable(Pieces(body, pos))
    ensures Pieces(body, pos) == [pair] + Pieces(body, next)
    ensures ValueDecodable(pair) && AllDecodable(Pieces(body, next))
    ensures FoldFields(data, Pieces(body, pos)) == FoldFields(AddField(data, pair), Pieces(body, next))
  {
    match Find(body, '&', pos)
    case None =>
      assert Pieces(body, pos) == [pair];
      assert Pieces(body, next) == [];
    case Some(a) =>
      PiecesAtSeparator(body, pos, a);
    FoldCons(data, pair, Pieces(body, next));
  }

  /** What one step of the loop stores, by where the piece's first '=' is. */
  lemma AddFieldRead(m: map<string, string>, piece: string)
    requires ValueDecodable(piece)
    ensures Find(piece, '=', 0).None? ==> AddField(m, piece) == m
    ensures Find(piece, '=', 0).Some? ==>
              var e := Find(piece, '=', 0).value;
              Decodable(piece[e + 1..]) && AddField(m, piece) == m[piece[..e] := UrlDecoded(piece[e + 1..])]
  {
  }

  /** Folding a piece in front: it is added first, then the rest. */
  lemma FoldCons(m: map<string, string>, piece: string, rest: seq<string>)
    requires AllDecodable([piece] + rest)
    ensures ValueDecodable(piece) && AllDecodable(rest)
    ensures FoldFields(m, [piece] + rest) == FoldFields(AddField(m, piece), rest)
  {
    var ps := [piece] + rest;
    assert ps[0] == piece && ps[1..] == rest;
    assert forall i :: 0 <= i < |rest| ==> rest[i] == ps[i + 1];
  }

  /** The pair-splitting loop of parsePostData, over the body already read. */
  method ParseFormBody(body: string) returns (data: map<string, string>)
    requires BodyDecodable(body)
    ensures data == FormFields(body)
  {
    data := map[];
    var pos := 0;
    while pos < |body|
      invariant pos <= |body|
      invariant AllDecodable(Pieces(body, pos))
      invariant FoldFields(data, Pieces(body, pos)) == FormFields(body)
      decreases |body| - pos
    {
      var amp := Find(body, '&', pos);
      var pair := if amp.None? then body[pos..] else body[pos..amp.value];
      var next := if amp.None? then |body| else amp.value + 1;
      FieldsStep(body, pos, pair, next, data);
      AddFieldRead(data, pair);
      var eq := Find(pair, '=', 0);
      if eq.Some? {
        var key := pair[..eq.value];
        var value := UrlDecode(pair[eq.value + 1..]);
        data := data[key := value];
      }
      pos := next;
    }
  }

  /** The key of a field present in the result came from some piece, and every such key is present. */
  lemma {:induction false} FoldFieldsKeys(m: map<string, string>, ps: seq<string>, k: string)
    requires AllDecodable(ps)
    ensures k in FoldFields(m, ps) <==> k in m || exists i :: 0 <= i < |ps| && KeyOf(ps[i]) == Some(k)
    decreases |ps|
  {
    if ps != [] {
      FoldFieldsKeys(AddField(m, ps[0]), ps[1..], k);
      if exists i :: 0 <= i < |ps| && KeyOf(ps[i]) == Some(k) {
        var i :| 0 <= i < |ps| && KeyOf(ps[i]) == Some(k);
        if i > 0 {
          assert KeyOf(ps[1..][i - 1]) == Some(k);
        }
      }
      if exists i :: 0 <= i < |ps[1..]| && KeyOf(ps[1..][i]) == Some(k) {
        var i :| 0 <= i < |ps[1..]| && KeyOf(ps[1..][i]) == Some(k);
        assert KeyOf(ps[i + 1]) == Some(k);
      }
    }
  }

  /** A key no piece carries keeps the value it had. */
  lemma {:induction false} FoldFieldsUntouched(m: map<string, string>, ps: seq<string>, k: string)
    requires AllDecodable(ps)
    requires forall i :: 0 <= i < |ps| ==> KeyOf(ps[i]) != Some(k)
    requires k in m
    ensures k in FoldFields(m, ps) && FoldFields(m, ps)[k] == m[k]
    decreases |ps|
  {
    if ps != [] {
      assert KeyOf(ps[0]) != Some(k);
      assert forall i :: 0 <= i < |ps[1..]| ==> KeyOf(ps[1..][i]) != Some(k) by {
        forall i | 0 <= i < |ps[1..]| ensures KeyOf(ps[1..][i]) != Some(k) {
          assert ps[1..][i] == ps[i + 1];
        }
      }
      FoldFieldsUntouched(AddField(m, ps[0]), ps[1..], k);
    }
  }

  /** A later duplicate key overwrites an earlier one: the last piece carrying a key decides its value. */
  lemma {:induction false} FoldFieldsLastWins(m: map<string, string>, ps: seq<string>, k: string, i: nat)
    requires AllDecodable(ps)
    requires i < |ps| && KeyOf(ps[i]) == Some(k)
    requires forall j :: i < j < |ps| ==> KeyOf(ps[j]) != Some(k)
    ensures k in FoldFields(m, ps) && FoldFields(m, ps)[k] == ValueOf(ps[i])
    decreases |ps|
  {
    if i == 0 {
      var m' := AddField(m, ps[0]);
      assert forall j :: 0 <= j < |ps[1..]| ==> KeyOf(ps[1..][j]) != Some(k) by {
        forall j | 0 <= j < |ps[1..]| ensures KeyOf(ps[1..][j]) != Some(k) {
          assert ps[1..][j] == ps[j + 1];
        }
      }
      FoldFieldsUntouched(m', ps[1..], k);
    } else {
      assert ps[1..][i - 1] == ps[i];
      assert forall j :: i - 1 < j < |ps[1..]| ==> KeyOf(ps[1..][j]) != Some(k) by {
        forall j | i - 1 < j < |ps[1..]| ensures KeyOf(ps[1..][j]) != Some(k) {
          assert ps[1..][j] == ps[j + 1];
        }
      }
      FoldFieldsLastWins(AddField(m, ps[0]), ps[1..], k, i - 1);
    }
  }

  /**
   * A key is among the fields of a body exactly when some piece carries it
   * before its first '='; pieces without '=' contribute nothing.
   */
  lemma FormFieldsKeys(body: string, k: string)
    requires BodyDecodable(body)
    ensures k in FormFields(body) <==>
            exists i :: 0 <= i < |Pieces(body, 0)| && KeyOf(Pieces(body, 0)[i]) == Some(k)
  {
    var empty: map<string, string> := map[];
    FoldFieldsKeys(empty, Pieces(body, 0), k);
    assert FormFields(body) == FoldFields(empty, Pieces(body, 0));
    assert k !in empty;
  }

  /** The value of a key is the decoded value of the last piece that carries it. */
  lemma FormFieldsLastWins(body: string, k: string, i: nat)
    requires BodyDecodable(body)
    requires i < |Pieces(body, 0)| && KeyOf(Pieces(body, 0)[i]) == Some(k)
    requires forall j :: i < j < |Pieces(body, 0)| ==> KeyOf(Pieces(body, 0)[j]) != Some(k)
    ensures k in FormFields(body) && FormFields(body)[k] == ValueOf(Pieces(body, 0)[i])
  {
    FoldFieldsLastWins(map[], Pieces(body, 0), k, i);
  }

  /** std::map::operator[] on the parsed fields: a missing field reads as "". */
  function Field(form: map<string, string>, key: string): (v: string)
    ensures key !in form ==> v == ""
    ensures key in form ==> v == form[key]
  {
    if key in form then form[key] else ""
  }

  // ---------------------------------------------------------------------------
  // isValidEmail
  // ---------------------------------------------------------------------------

  /** `i` is the first index at or after `from` where `s` holds `c`. */
  predicate FirstIndexFrom(s: string, c: char, from: nat, i: nat)
  {
    from <= i < |s| && s[i] == c && forall k :: from <= k < i ==> s[k] != c
  }

  /**
   * isValidEmail: the first '@' is not at the start, and the first '.' after
   * it is at least two places further on and is not the last character.
   */
  function IsValidEmail(email: string): (ok: bool)
    ensures ok <==> exists a: nat, d: nat :: FirstIndexFrom(email, '@', 0, a) && FirstIndexFrom(email, '.', a, d)
                                   && 0 < a && a + 1 < d < |email| - 1
  {
    var at := Find(email, '@', 0);
    var dot := if at.None? then None else Find(email, '.', at.value);
    var ok := at.Some? && dot.Some? && at.value > 0 && dot.value > at.value + 1 && dot.value < |email| - 1;
    assert ok ==> FirstIndexFrom(email, '@', 0, at.value) && FirstIndexFrom(email, '.', at.value, dot.value);
    ok
  }

}
