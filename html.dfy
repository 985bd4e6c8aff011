/** HTML escaping: PHP's `htmlspecialchars` with the PHP 8.1 default flags, which escapes exactly the
    same five characters, with the same entities, as the admin page's `escapeHtml`. */
module Html {

  /** The characters that are replaced by an entity. */
  predicate IsSpecial(c: char) {
    c == '&' || c == '<' || c == '>' || c == '"' || c == '\''
  }

  function EscapeChar(c: char): string {
    match c
    case '&' => "&amp;"
    case '<' => "&lt;"
    case '>' => "&gt;"
    case '"' => "&quot;"
    case '\'' => "&#039;"
    case _ => [c]
  }

  /** Every special character is replaced by its entity, every other character is copied. The result
      never contains `<`, `>`, `"` or `'`, and it is never shorter than the input. */
  function Escape(s: string): (r: string)
    ensures |r| >= |s|
    ensures forall i :: 0 <= i < |r| ==> r[i] != '<' && r[i] != '>' && r[i] != '"' && r[i] != '\''
  {
    if s == [] then [] else EscapeChar(s[0]) + Escape(s[1..])
  }

  /** The inverse of `Escape` (PHP's `htmlspecialchars_decode` restricted to the five entities). */
  function Unescape(s: string): string
    decreases |s|
  {
    if s == [] then []
    else if s[0] != '&' then [s[0]] + Unescape(s[1..])
    else if |s| >= 5 && s[..5] == "&amp;" then "&" + Unescape(s[5..])
    else if |s| >= 4 && s[..4] == "&lt;" then "<" + Unescape(s[4..])
    else if |s| >= 4 && s[..4] == "&gt;" then ">" + Unescape(s[4..])
    else if |s| >= 6 && s[..6] == "&quot;" then "\"" + Unescape(s[6..])
    else if |s| >= 6 && s[..6] == "&#039;" then "'" + Unescape(s[6..])
    else "&" + Unescape(s[1..])
  }

  lemma {:induction false} UnescapeAfterChar(c: char, rest: string)
    ensures Unescape(EscapeChar(c) + rest) == [c] + Unescape(rest)
  {
    var t := EscapeChar(c) + rest;
    match c
    case '&' =>
      assert t[..5] == "&amp;" && t[5..] == rest;
    case '<' =>
      assert t[..4] == "&lt;" && t[4..] == rest;
      assert |t| >= 5 ==> t[..5][1] == t[1] == 'l';
    case '>' =>
      assert t[..4] == "&gt;" && t[4..] == rest;
      assert |t| >= 5 ==> t[..5][1] == t[1] == 'g';
      assert t[..4][1] == 'g';
    case '"' =>
      assert t[..6] == "&quot;" && t[6..] == rest;
      assert t[1] == 'q' && t[..5][1] == 'q' && t[..4][1] == 'q';
    case '\'' =>
      assert t[..6] == "&#039;" && t[6..] == rest;
      assert t[1] == '#' && t[..5][1] == '#' && t[..4][1] == '#';
    case _ =>
      assert t[0] == c && t[1..] == rest;
  }

  /** Escaping loses nothing: decoding the escaped text gives back the original. */
  lemma {:induction false} UnescapeEscape(s: string)
    ensures Unescape(Escape(s)) == s
  {
    if s != [] {
      UnescapeAfterChar(s[0], Escape(s[1..]));
      UnescapeEscape(s[1..]);
    }
  }

  /** Escaping distributes over concatenation, so it works character by character. */
  lemma {:induction false} EscapeAppend(a: string, b: string)
    ensures Escape(a + b) == Escape(a) + Escape(b)
  {
    if a != [] {
      assert (a + b)[1..] == a[1..] + b;
      EscapeAppend(a[1..], b);
    } else {
      assert a + b == b;
    }
  }

  /** Text without special characters is left unchanged. */
  lemma {:induction false} EscapePlain(s: string)
    requires forall i :: 0 <= i < |s| ==> !IsSpecial(s[i])
    ensures Escape(s) == s
  {
    if s != [] {
      EscapePlain(s[1..]);
    }
  }
}
