/** The PHP string built-ins that the user handler applies to its input:
    `empty`, `trim` and `htmlspecialchars` (backend/api/users.php:83, 106-107). */
module PhpText {
  import opened Wrappers

  /** PHP `empty()` on a request field: an absent or null field, the empty
      string and the string "0" all count as empty. */
  predicate PhpEmpty(field: Option<string>)
    ensures !PhpEmpty(field) ==> field.Some? && |field.value| > 0
    ensures field.Some? && |field.value| > 1 ==> !PhpEmpty(field)
    ensures field.Some? && |field.value| == 1 ==> (PhpEmpty(field) <==> field.value == "0")
  {
    field.None? || field.value == "" || field.value == "0"
  }

  /** The characters `trim` strips by default: space, tab, line feed,
      carriage return, NUL and vertical tab. */
  predicate IsTrimChar(c: char)
  {
    c == ' ' || c == '\t' || c == '\n' || c == '\r' || c == '\0' || c == '\U{000B}'
  }

  /** Strips leading trim characters. */
  function TrimLeft(s: string): (r: string)
    ensures |r| <= |s| && r == s[|s| - |r|..]
    ensures forall k :: 0 <= k < |s| - |r| ==> IsTrimChar(s[k])
    ensures r != [] ==> !IsTrimChar(r[0])
  {
    if s != [] && IsTrimChar(s[0]) then TrimLeft(s[1..]) else s
  }

  /** Strips trailing trim characters. */
  function TrimRight(s: string): (r: string)
    ensures |r| <= |s| && r == s[..|r|]
    ensures forall k :: |r| <= k < |s| ==> IsTrimChar(s[k])
    ensures r != [] ==> !IsTrimChar(r[|r| - 1])
  {
    if s != [] && IsTrimChar(s[|s| - 1]) then TrimRight(s[..|s| - 1]) else s
  }

  /** PHP `trim($s)`: the longest slice of `s` that neither starts nor ends
      with a trim character; everything cut off on either side is a trim
      character, and the result is empty exactly when `s` is all trim
      characters. */
  function Trim(s: string): (r: string)
    ensures exists i {:trigger s[i..]} :: 0 <= i <= |s| - |r| && r == s[i..][..|r|]
                        && (forall k :: 0 <= k < i ==> IsTrimChar(s[k]))
                        && (forall k :: i + |r| <= k < |s| ==> IsTrimChar(s[k]))
    ensures r != [] ==> !IsTrimChar(r[0]) && !IsTrimChar(r[|r| - 1])
    ensures r == [] <==> forall k :: 0 <= k < |s| ==> IsTrimChar(s[k])
  {
    var left := TrimLeft(s);
    var r := TrimRight(left);
    var i := |s| - |left|;
    assert r == s[i..][..|r|];
    r
  }

  /** Trimming twice is trimming once. */
  lemma TrimIdempotent(s: string)
    ensures Trim(Trim(s)) == Trim(s)
  {
    var r := Trim(s);
    assert TrimLeft(r) == r;
    assert TrimRight(r) == r;
  }

  /** A character that `htmlspecialchars` never lets through unescaped. */
  predicate IsMarkup(c: char)
  {
    c == '<' || c == '>' || c == '"' || c == '\''
  }

  /** The replacement `htmlspecialchars` makes for one character under the
      default flags (ENT_QUOTES): the five HTML metacharacters become
      entities, every other character stays. */
  function EscapeChar(c: char): (e: string)
    ensures |e| >= 1
    ensures forall k :: 0 <= k < |e| ==> !IsMarkup(e[k])
    ensures !IsMarkup(c) && c != '&' ==> e == [c]
  {
    if c == '&' then "&amp;"
    else if c == '"' then "&quot;"
    else if c == '\'' then "&#039;"
    else if c == '<' then "&lt;"
    else if c == '>' then "&gt;"
    else [c]
  }

  /** PHP `htmlspecialchars($s)`: no tag or quote character survives, the
      result is never shorter, and text free of the five metacharacters
      comes back unchanged. */
  function HtmlEscape(s: string): (r: string)
    ensures |r| >= |s|
    ensures forall k :: 0 <= k < |r| ==> !IsMarkup(r[k])
    ensures (forall k :: 0 <= k < |s| ==> !IsMarkup(s[k]) && s[k] != '&') ==> r == s
  {
    if s == [] then []
    else
      var e, rest := EscapeChar(s[0]), HtmlEscape(s[1..]);
      assert forall k :: |e| <= k < |e| + |rest| ==> (e + rest)[k] == rest[k - |e|];
      e + rest
  }

  /** Decodes the five entities `HtmlEscape` produces, left to right. */
  function HtmlUnescape(s: string): string
  {
    if s == [] then []
    else if s[0] != '&' then [s[0]] + HtmlUnescape(s[1..])
    else if "&amp;" <= s then "&" + HtmlUnescape(s[5..])
    else if "&quot;" <= s then "\"" + HtmlUnescape(s[6..])
    else if "&#039;" <= s then "'" + HtmlUnescape(s[6..])
    else if "&lt;" <= s then "<" + HtmlUnescape(s[4..])
    else if "&gt;" <= s then ">" + HtmlUnescape(s[4..])
    else [s[0]] + HtmlUnescape(s[1..])
  }

  /** Decoding an escaped character followed by more text yields that
      character first: no entity is a prefix of another. */
  lemma UnescapeEscapedChar(c: char, rest: string)
    ensures HtmlUnescape(EscapeChar(c) + rest) == [c] + HtmlUnescape(rest)
  {
    var t := EscapeChar(c) + rest;
    assert t[|EscapeChar(c)|..] == rest;
    if c == '&' {
      assert "&amp;" <= t;
    } else if c == '"' {
      assert "&quot;" <= t && t[1] == 'q';
    } else if c == '\'' {
      assert "&#039;" <= t && t[1] == '#';
    } else if c == '<' {
      assert "&lt;" <= t && t[1] == 'l';
    } else if c == '>' {
      assert "&gt;" <= t && t[1] == 'g';
    } else {
      assert t[0] == c;
    }
  }

  /** Escaping loses nothing: the stored text decodes back to the input. */
  lemma {:induction false} EscapeRoundTrip(s: string)
    ensures HtmlUnescape(HtmlEscape(s)) == s
  {
    if s != [] {
      assert HtmlEscape(s) == EscapeChar(s[0]) + HtmlEscape(s[1..]);
      UnescapeEscapedChar(s[0], HtmlEscape(s[1..]));
      EscapeRoundTrip(s[1..]);
    }
  }
}
