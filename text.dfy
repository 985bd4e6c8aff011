/** String operations with the semantics of the PHP built-ins the provisioning code is written with:
    `str_replace`, `strpos`-style search, `trim`, `basename`, `strtoupper`, and PHP truthiness of strings. */
module Text {

  datatype Option<T> = None | Some(value: T) {
    /** The value, or `default` when there is none (PHP's `??`). */
    function GetOr(default: T): T {
      match this
      case Some(v) => v
      case None => default
    }
  }

  // ---------------------------------------------------------------------------
  // Occurrences and search

  /** `w` occurs in `s` starting at position `i`. */
  predicate OccursAt(s: string, w: string, i: nat) {
    i + |w| <= |s| && s[i..i + |w|] == w
  }

  /** No occurrence of `w` in `s` starts at a position in `[from, to)`. */
  predicate NoneBetween(s: string, w: string, from: nat, to: nat) {
    forall j :: from <= j < to ==> !OccursAt(s, w, j)
  }

  /** `w` does not occur anywhere in `s`. */
  predicate Absent(s: string, w: string) {
    NoneBetween(s, w, 0, |s| + 1)
  }

  /** The first position at or after `from` where `w` occurs in `s`. */
  function Find(s: string, w: string, from: nat): (r: Option<nat>)
    requires from <= |s|
    ensures r.Some? ==> from <= r.value <= |s| && OccursAt(s, w, r.value) && NoneBetween(s, w, from, r.value)
    ensures r.None? ==> NoneBetween(s, w, from, |s| + 1)
    decreases |s| - from
  {
    if OccursAt(s, w, from) then Some(from)
    else if from == |s| then None
    else Find(s, w, from + 1)
  }

  /** Find returns the first occurrence at or after `from`. */
  lemma {:induction false} FindFirst(s: string, w: string, from: nat, n: nat)
    requires from <= n && OccursAt(s, w, n) && NoneBetween(s, w, from, n)
    ensures Find(s, w, from) == Some(n)
    decreases n - from
  {
    if from < n {
      assert !OccursAt(s, w, from);
      FindFirst(s, w, from + 1, n);
    }
  }

  lemma {:induction false} OccursShift(s: string, w: string, j: nat)
    requires |s| > 0
    ensures OccursAt(s[1..], w, j) <==> OccursAt(s, w, j + 1)
  {
    if j + 1 + |w| <= |s| {
      assert s[1..][j..j + |w|] == s[j + 1..j + 1 + |w|];
    }
  }

  /** No occurrence in the first `n` positions of `s` means none in the first `n - 1` of its tail. */
  lemma {:induction false} NoneBetweenTail(s: string, w: string, n: nat)
    requires 0 < n <= |s| && NoneBetween(s, w, 0, n)
    ensures !OccursAt(s, w, 0) && NoneBetween(s[1..], w, 0, n - 1)
  {
    assert !OccursAt(s, w, 0);
    forall j | 0 <= j < n - 1
      ensures !OccursAt(s[1..], w, j)
    {
      OccursShift(s, w, j);
    }
  }

  lemma {:induction false} PrefixOfConcat(a: string, b: string)
    ensures (a + b)[..|a|] == a
  {
  }

  /** Splitting off the first character of a prefix. */
  lemma {:induction false} HeadSplit(s: string, n: nat, c: string)
    requires 0 < n <= |s|
    ensures s[1..][n - 1..] == s[n..]
    ensures [s[0]] + (s[1..][..n - 1] + c) == s[..n] + c
  {
    assert s[..n] == [s[0]] + s[1..][..n - 1];
  }

  lemma {:induction false} OccursInPrefix(s: string, t: string, w: string, j: nat)
    requires j + |w| <= |s|
    ensures OccursAt(s + t, w, j) <==> OccursAt(s, w, j)
  {
    assert (s + t)[j..j + |w|] == s[j..j + |w|];
  }

  lemma {:induction false} OccursInSuffix(s: string, t: string, w: string, j: nat)
    ensures OccursAt(s + t, w, |s| + j) <==> OccursAt(t, w, j)
  {
    if j + |w| <= |t| {
      assert (s + t)[|s| + j..|s| + j + |w|] == t[j..j + |w|];
    }
  }

  // ---------------------------------------------------------------------------
  // str_replace

  /** PHP `str_replace($w, $r, $s)` for a single search string: occurrences are found
      from left to right and do not overlap; an empty search string changes nothing. */
  function Replace(s: string, w: string, r: string): string
    decreases |s|
  {
    if |w| == 0 || |s| == 0 then s
    else if OccursAt(s, w, 0) then r + Replace(s[|w|..], w, r)
    else [s[0]] + Replace(s[1..], w, r)
  }

  /** Text before the first occurrence of the search string is copied unchanged. */
  lemma {:induction false} ReplaceKeepsPrefix(s: string, w: string, r: string, n: nat)
    requires n <= |s| && NoneBetween(s, w, 0, n)
    ensures Replace(s, w, r) == s[..n] + Replace(s[n..], w, r)
  {
    if n > 0 && |w| > 0 {
      assert !OccursAt(s, w, 0);
      forall j | 0 <= j < n - 1
        ensures !OccursAt(s[1..], w, j)
      {
        OccursShift(s, w, j);
      }
      ReplaceKeepsPrefix(s[1..], w, r, n - 1);
      assert s[1..][n - 1..] == s[n..];
      assert s[..n] == [s[0]] + s[1..][..n - 1];
    }
  }

  /** A string without any occurrence of the search string is left as it is. */
  lemma {:induction false} ReplaceAbsent(s: string, w: string, r: string)
    requires Absent(s, w)
    ensures Replace(s, w, r) == s
  {
    ReplaceKeepsPrefix(s, w, r, |s|);
    assert s[..|s|] == s;
  }

  /** The first occurrence is replaced and the scan resumes right after it. */
  lemma {:induction false} ReplaceFirst(s: string, w: string, r: string, n: nat)
    requires |w| > 0 && OccursAt(s, w, n) && NoneBetween(s, w, 0, n)
    ensures Replace(s, w, r) == s[..n] + r + Replace(s[n + |w|..], w, r)
  {
    var t := s[n..];
    var tail := Replace(s[n + |w|..], w, r);
    ReplaceKeepsPrefix(s, w, r, n);
    assert t[..|w|] == s[n..n + |w|];
    assert t[|w|..] == s[n + |w|..];
    ReplaceAtStart(t, w, r);
    assert Replace(t, w, r) == r + tail;
    assert s[..n] + (r + tail) == s[..n] + r + tail;
  }

  lemma {:induction false} ReplaceAtStart(t: string, w: string, r: string)
    requires |w| > 0 && OccursAt(t, w, 0)
    ensures Replace(t, w, r) == r + Replace(t[|w|..], w, r)
  {
  }

  /** A string that is exactly the search string becomes the replacement. */
  lemma {:induction false} WholeReplace(w: string, r: string)
    requires |w| > 0
    ensures Replace(w, w, r) == r
  {
    assert OccursAt(w, w, 0);
    assert w[|w|..] == [];
    assert Replace(w, w, r) == r + Replace([], w, r);
  }

  /** Text without the search string's first character, followed by one copy of the search string:
      only that copy is replaced. */
  lemma {:induction false} ReplaceAfterPlain(x: string, w: string, r: string)
    requires |w| > 0 && forall i :: 0 <= i < |x| ==> x[i] != w[0]
    ensures Replace(x + w, w, r) == x + r
  {
    var t := x + w;
    forall j | 0 <= j < |x|
      ensures !OccursAt(t, w, j)
    {
      if j + |w| <= |t| { assert t[j..j + |w|][0] == t[j] == x[j]; }
    }
    ReplaceKeepsPrefix(t, w, r, |x|);
    assert t[..|x|] == x && t[|x|..] == w;
    WholeReplace(w, r);
  }

  /** A string shorter than the search string cannot contain it. */
  lemma {:induction false} AbsentWhenShorter(s: string, w: string)
    requires |s| < |w|
    ensures Absent(s, w)
  {
  }

  /** A string with no occurrence of the search string's first character cannot contain it. */
  lemma {:induction false} AbsentWithoutFirstChar(s: string, w: string)
    requires |w| > 0 && forall i :: 0 <= i < |s| ==> s[i] != w[0]
    ensures Absent(s, w)
  {
    forall j | 0 <= j <= |s|
      ensures !OccursAt(s, w, j)
    {
      if j + |w| <= |s| {
        assert s[j..j + |w|][0] == s[j];
      }
    }
  }

  // ---------------------------------------------------------------------------
  // PHP truthiness, trim, basename

  /** PHP truthiness of a string (`if ($s)`, `!empty($s)`): every string except "" and "0". */
  predicate Truthy(s: string) {
    s != "" && s != "0"
  }

  /** The characters PHP's `trim` removes by default: space, tab, LF, CR, NUL and vertical tab. */
  predicate IsTrimSpace(c: char) {
    c == ' ' || c == '\t' || c == '\n' || c == '\r' || c as int == 0 || c as int == 11
  }

  function TrimLeft(s: string): (r: string)
    ensures |r| <= |s| && r == s[|s| - |r|..]
    ensures r == [] || !IsTrimSpace(r[0])
    ensures forall i :: 0 <= i < |s| - |r| ==> IsTrimSpace(s[i])
  {
    if s != [] && IsTrimSpace(s[0]) then TrimLeft(s[1..]) else s
  }

  function TrimRight(s: string): (r: string)
    ensures |r| <= |s| && r == s[..|r|]
    ensures r == [] || !IsTrimSpace(r[|r| - 1])
    ensures forall i :: |r| <= i < |s| ==> IsTrimSpace(s[i])
  {
    if s != [] && IsTrimSpace(s[|s| - 1]) then TrimRight(s[..|s| - 1]) else s
  }

  /** PHP `trim($s)`: the longest middle part of `s` with default whitespace removed at both ends. */
  function Trim(s: string): (r: string)
  {
    TrimRight(TrimLeft(s))
  }

  /** A string with no trimmed character at either end is its own trim. */
  lemma {:induction false} TrimUnchanged(s: string)
    requires s == [] || (!IsTrimSpace(s[0]) && !IsTrimSpace(s[|s| - 1]))
    ensures Trim(s) == s
  {
  }

  function DropTrailingSlashes(p: string): (r: string)
    ensures |r| <= |p| && r == p[..|r|]
    ensures r == [] || r[|r| - 1] != '/'
  {
    if p != [] && p[|p| - 1] == '/' then DropTrailingSlashes(p[..|p| - 1]) else p
  }

  function AfterLastSlash(p: string): (r: string)
    ensures |r| <= |p|
    ensures forall i :: 0 <= i < |r| ==> r[i] != '/'
    ensures |r| < |p| ==> p[|p| - |r| - 1] == '/'
  {
    if p == [] then []
    else if p[|p| - 1] == '/' then []
    else AfterLastSlash(p[..|p| - 1]) + [p[|p| - 1]]
  }

  /** PHP `basename($p)` on a POSIX system: trailing slashes are ignored and the part after the last
      remaining slash is returned. */
  function Basename(p: string): string {
    AfterLastSlash(DropTrailingSlashes(p))
  }

  /** A path without a slash is its own base name. */
  lemma {:induction false} BasenamePlain(p: string)
    requires forall i :: 0 <= i < |p| ==> p[i] != '/'
    ensures Basename(p) == p
  {
    if p != [] { assert p[|p| - 1] != '/'; }
    AfterLastSlashPlain(p);
  }

  lemma {:induction false} AfterLastSlashPlain(p: string)
    requires forall i :: 0 <= i < |p| ==> p[i] != '/'
    ensures AfterLastSlash(p) == p
  {
    if p != [] {
      AfterLastSlashPlain(p[..|p| - 1]);
      assert p[..|p| - 1] + [p[|p| - 1]] == p;
    }
  }

  /** The base name of `<dir>/<name>` is `name` when `name` is non-empty and holds no slash. */
  lemma {:induction false} AfterLastSlashTail(prefix: string, name: string)
    requires |prefix| >= 1 && prefix[|prefix| - 1] == '/'
    requires |name| >= 1 && forall i :: 0 <= i < |name| ==> name[i] != '/'
    ensures AfterLastSlash(prefix + name) == name
    decreases |name|
  {
    var p := prefix + name;
    if |name| == 1 {
      assert p[..|p| - 1] == prefix;
    } else {
      assert p[..|p| - 1] == prefix + name[..|name| - 1];
      AfterLastSlashTail(prefix, name[..|name| - 1]);
      assert name[..|name| - 1] + [name[|name| - 1]] == name;
    }
  }

  /** PHP `basename($p, $suffix)`: the suffix is cut off when the name ends in it and is longer than it. */
  function BasenameWithout(p: string, suffix: string): string {
    var b := Basename(p);
    if |b| > |suffix| && b[|b| - |suffix|..] == suffix then b[..|b| - |suffix|] else b
  }

  // ---------------------------------------------------------------------------
  // Characters

  predicate IsDigit(c: char) { '0' <= c <= '9' }
  predicate IsUpper(c: char) { 'A' <= c <= 'Z' }
  predicate IsLower(c: char) { 'a' <= c <= 'z' }
  predicate IsAlnum(c: char) { IsDigit(c) || IsUpper(c) || IsLower(c) }
  /** The character class `[A-F0-9]`. */
  predicate IsUpperHex(c: char) { IsDigit(c) || 'A' <= c <= 'F' }

  /** PHP 8 `strtoupper` / `strtolower` act on ASCII letters only. */
  function UpperChar(c: char): char { if IsLower(c) then (c as int - 32) as char else c }
  function LowerChar(c: char): char { if IsUpper(c) then (c as int + 32) as char else c }

  function Upper(s: string): (r: string)
    ensures |r| == |s| && forall i :: 0 <= i < |s| ==> r[i] == UpperChar(s[i])
  {
    if s == [] then [] else [UpperChar(s[0])] + Upper(s[1..])
  }

  function Lower(s: string): (r: string)
    ensures |r| == |s| && forall i :: 0 <= i < |s| ==> r[i] == LowerChar(s[i])
  {
    if s == [] then [] else [LowerChar(s[0])] + Lower(s[1..])
  }

  /** PCRE's `$` without the D modifier also matches just before a final newline: the part of a
      subject that a pattern anchored with `^...$` has to match. */
  function DollarBody(s: string): string {
    if |s| > 0 && s[|s| - 1] == '\n' then s[..|s| - 1] else s
  }
}
