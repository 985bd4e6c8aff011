/** The two regular expressions the loop passes use besides `str_replace`: the first
    `{{<name>_loop}}(.*?){{/<name>_loop}}` block of a template (`preg_match`, lazy, dot matches newline),
    and the stripping of leftover `{{[a-z_]+}}` tokens (`preg_replace` over every match). */
module Tokens {
  import opened Text

  /** A matched loop block: it starts at `start`, its inner text is `body` and it ends (exclusive) at `end`. */
  datatype Block = Block(start: nat, body: string, end: nat)

  /** The first match of `open(.*?)close`: the leftmost `open`, closed by the first `close` after it.
      When no `close` follows the leftmost `open`, none follows a later one either, so there is no match
      anywhere (second ensures). */
  function FirstBlock(s: string, open: string, close: string): (r: Option<Block>)
    ensures r.Some? ==>
      var c := r.value.end - |close|;
      && OccursAt(s, open, r.value.start) && NoneBetween(s, open, 0, r.value.start)
      && r.value.start + |open| <= c && OccursAt(s, close, c) && NoneBetween(s, close, r.value.start + |open|, c)
      && r.value.body == s[r.value.start + |open|..c] && r.value.end <= |s|
    ensures r.None? ==>
      forall p: nat, c: nat :: p + |open| <= c && OccursAt(s, open, p) ==> !OccursAt(s, close, c)
  {
    match Find(s, open, 0)
    case None => None
    case Some(p) =>
      if p + |open| > |s| then None
      else
        match Find(s, close, p + |open|)
        case None => None
        case Some(c) => Some(Block(p, s[p + |open|..c], c + |close|))
  }

  /** The block that starts the string and is closed by the first `close` after its `open` is the
      first block. */
  lemma {:induction false} FirstBlockAtStart(s: string, open: string, close: string, c: nat)
    requires OccursAt(s, open, 0) && |open| <= c
    requires OccursAt(s, close, c) && NoneBetween(s, close, |open|, c)
    ensures FirstBlock(s, open, close) == Some(Block(0, s[|open|..c], c + |close|))
  {
    FindFirst(s, open, 0, 0);
    FindFirst(s, close, |open|, c);
  }

  lemma {:induction false} OccursPrefixOf(s: string, w: string, v: string, j: nat)
    requires OccursAt(s, w, j) && |v| <= |w| && w[..|v|] == v
    ensures OccursAt(s, v, j)
  {
    assert s[j..j + |v|] == s[j..j + |w|][..|v|];
  }

  /** `str_replace($matches[0], $built, $s)` puts the replacement where the first block stands: the
      text before the block is kept, and only later copies of exactly the same text are replaced too. */
  lemma {:induction false} BlockReplacedInPlace(s: string, open: string, close: string, built: string)
    requires |open| > 0 && FirstBlock(s, open, close).Some?
    ensures
      var b := FirstBlock(s, open, close).value;
      Replace(s, s[b.start..b.end], built) == s[..b.start] + built + Replace(s[b.end..], s[b.start..b.end], built)
  {
    var b := FirstBlock(s, open, close).value;
    var m := s[b.start..b.end];
    assert m[..|open|] == open;
    forall j | 0 <= j < b.start
      ensures !OccursAt(s, m, j)
    {
      if OccursAt(s, m, j) {
        OccursPrefixOf(s, m, open, j);
      }
    }
    ReplaceFirst(s, m, built, b.start);
  }

  /** Two identical copies of a block with text between them, none of which holds a `{` (which both
      markers start with): the first block is the first copy, and both copies are replaced. */
  lemma {:induction false} TwoCopies(open: string, body: string, close: string, x: string, built: string)
    requires |open| > 0 && |close| > 0 && open[0] == '{' && close[0] == '{'
    requires forall i :: 0 <= i < |body| ==> body[i] != '{'
    requires forall i :: 0 <= i < |x| ==> x[i] != '{'
    ensures
      var m := open + body + close;
      var s := m + x + m;
      FirstBlock(s, open, close) == Some(Block(0, body, |m|)) && s[0..|m|] == m &&
      Replace(s, m, built) == built + x + built
  {
    var m := open + body + close;
    FirstCopyIsBlock(open, body, close, x + m);
    assert m + x + m == m + (x + m);
    ReplaceTwoCopies(m, x, built);
  }

  /** A block at the start whose body holds no `{` is the first block, whatever follows it. */
  lemma {:induction false} FirstCopyIsBlock(open: string, body: string, close: string, rest: string)
    requires |open| > 0 && |close| > 0 && close[0] == '{'
    requires forall i :: 0 <= i < |body| ==> body[i] != '{'
    ensures
      var m := open + body + close;
      var s := m + rest;
      FirstBlock(s, open, close) == Some(Block(0, body, |m|)) && s[0..|m|] == m
  {
    var m := open + body + close;
    var s := m + rest;
    var c := |open| + |body|;
    assert s[..|m|] == m;
    assert OccursAt(s, open, 0) by { assert s[..|open|] == m[..|open|] == open; }
    assert OccursAt(s, close, c) by { assert s[c..c + |close|] == m[c..c + |close|] == close; }
    forall j | |open| <= j < c
      ensures !OccursAt(s, close, j)
    {
      assert s[j] == m[j] == body[j - |open|];
      if j + |close| <= |s| { assert s[j..j + |close|][0] == s[j]; }
    }
    FirstBlockAtStart(s, open, close, c);
    assert s[|open|..c] == m[|open|..c] == body;
  }

  /** `str_replace` of a string that starts with `{`, in two copies with `{`-free text between. */
  lemma {:induction false} ReplaceTwoCopies(m: string, x: string, built: string)
    requires |m| > 0 && m[0] == '{'
    requires forall i :: 0 <= i < |x| ==> x[i] != '{'
    ensures Replace(m + (x + m), m, built) == built + x + built
  {
    var s := m + (x + m);
    assert OccursAt(s, m, 0) by { assert s[0..|m|] == m; }
    ReplaceAtStart(s, m, built);
    assert s[|m|..] == x + m;
    ReplaceAfterPlain(x, m, built);
  }

  // ---------------------------------------------------------------------------
  // Leftover tokens

  /** The character class `[a-z_]`. */
  predicate IsNameChar(c: char) {
    'a' <= c <= 'z' || c == '_'
  }

  /** The length of the longest run of `[a-z_]` at the start of `s`. */
  function NameRun(s: string): (n: nat)
    ensures n <= |s|
    ensures forall i :: 0 <= i < n ==> IsNameChar(s[i])
    ensures n < |s| ==> !IsNameChar(s[n])
  {
    if s != [] && IsNameChar(s[0]) then 1 + NameRun(s[1..]) else 0
  }

  /** `s[..n]` is a `{{[a-z_]+}}` token. */
  predicate TokenOfLength(s: string, n: nat) {
    5 <= n <= |s| && s[..2] == "{{" && s[n - 2..n] == "}}" && forall i :: 2 <= i < n - 2 ==> IsNameChar(s[i])
  }

  /** The length of the `{{[a-z_]+}}` match at the start of `s`, if there is one. Since `}` is not in
      `[a-z_]`, the greedy run is the only one that can be followed by `}}`, so the match is unique. */
  function TokenAt(s: string): (r: Option<nat>)
    ensures r.Some? ==> TokenOfLength(s, r.value) && forall n: nat :: TokenOfLength(s, n) ==> n == r.value
    ensures r.None? ==> forall n: nat :: !TokenOfLength(s, n)
  {
    if |s| >= 2 && s[..2] == "{{" then
      var n := NameRun(s[2..]);
      TokenRunIsName(s, n);
      if n >= 1 && OccursAt(s, "}}", 2 + n) then Some(n + 4) else None
    else None
  }

  /** Every token at the start of `s` is the greedy name run wrapped in braces. */
  lemma {:induction false} TokenRunIsName(s: string, n: nat)
    requires |s| >= 2 && n == NameRun(s[2..])
    ensures forall m: nat :: TokenOfLength(s, m) ==> m == n + 4 && n >= 1 && OccursAt(s, "}}", 2 + n)
  {
    forall m: nat | TokenOfLength(s, m)
      ensures m == n + 4 && n >= 1 && OccursAt(s, "}}", 2 + n)
    {
      var t := s[2..];
      forall i | 0 <= i < m - 4
        ensures IsNameChar(t[i])
      {
        assert t[i] == s[i + 2];
      }
      assert s[m - 2] == s[m - 2..m][0] == '}';
      assert t[m - 4] == s[m - 2];
      assert n == m - 4;
      assert s[2 + n..2 + n + 2] == s[m - 2..m];
    }
  }

  /** `preg_replace('/{{[a-z_]+}}/', '', s)`: every match found in a single left-to-right scan is
      deleted; the scan resumes after a deleted match, so text that only becomes a token once a match
      is removed is kept. */
  function StripTokens(s: string): (r: string)
    ensures |r| <= |s|
    decreases |s|
  {
    if s == [] then []
    else
      match TokenAt(s)
      case Some(n) => StripTokens(s[n..])
      case None => [s[0]] + StripTokens(s[1..])
  }

  /** Text without `{` has no token and is kept as it is. */
  lemma {:induction false} StripPlain(s: string)
    requires forall i :: 0 <= i < |s| ==> s[i] != '{'
    ensures StripTokens(s) == s
  {
    if s != [] {
      assert TokenAt(s).None? by {
        if |s| >= 2 { assert s[..2][0] == s[0]; }
      }
      StripPlain(s[1..]);
    }
  }

  /** A token at the start is deleted, whatever name it carries (a global variable such as `{{mac}}`
      included). */
  lemma {:induction false} StripLeadingToken(name: string, rest: string)
    requires |name| >= 1 && forall i :: 0 <= i < |name| ==> IsNameChar(name[i])
    ensures StripTokens("{{" + name + "}}" + rest) == StripTokens(rest)
  {
    var s := "{{" + name + "}}" + rest;
    assert s[..2] == "{{";
    assert s[2..] == name + "}}" + rest;
    NameRunOf(name, "}}" + rest);
    assert s[2 + |name|..2 + |name| + 2] == "}}";
    assert s[|name| + 4..] == rest;
  }

  lemma {:induction false} NameRunOf(name: string, rest: string)
    requires forall i :: 0 <= i < |name| ==> IsNameChar(name[i])
    requires rest == [] || !IsNameChar(rest[0])
    ensures NameRun(name + rest) == |name|
  {
    if name != [] {
      assert (name + rest)[1..] == name[1..] + rest;
      NameRunOf(name[1..], rest);
    } else {
      assert name + rest == rest;
    }
  }

  /** The single scan can leave a token behind: deleting `{{a}}` from `{{{{a}}b}}` brings the outer
      braces together into `{{b}}`, which the scan has already passed and a second scan would delete. */
  lemma {:induction false} StripExposesToken(a: string, b: string)
    requires |a| >= 1 && forall i :: 0 <= i < |a| ==> IsNameChar(a[i])
    requires |b| >= 1 && forall i :: 0 <= i < |b| ==> IsNameChar(b[i])
    ensures StripTokens("{{" + ("{{" + a + "}}") + (b + "}}")) == "{{" + b + "}}"
    ensures StripTokens("{{" + b + "}}") == ""
  {
    var inner := "{{" + a + "}}";
    var rest := b + "}}";
    forall i | 0 <= i < |rest|
      ensures rest[i] != '{'
    {
      if i < |b| { assert rest[i] == b[i]; }
    }
    StripPlain(rest);
    StripLeadingToken(a, rest);
    var t2 := inner + rest;
    assert t2[0] == '{' && t2[1] == '{';
    StripBrace(t2);
    var t1 := "{" + t2;
    assert t1[0] == '{' && t1[1] == '{';
    StripBrace(t1);
    TwoBraces(t2);
    Assoc("{{", inner, rest);
    TwoBraces(rest);
    Assoc("{{", b, "}}");
    StripLeadingToken(b, "");
    assert "{{" + b + "}}" + "" == "{{" + b + "}}";
  }

  /** Regrouping helpers: kept as lemmas so that each is proved on its own, outside the larger
      proof that uses them. */
  lemma TwoBraces(x: string)
    ensures "{" + ("{" + x) == "{{" + x
  {
  }

  lemma Assoc(p: string, q: string, r: string)
    ensures p + (q + r) == p + q + r
  {
  }

  /** A `{` before two more cannot start a token: the scan copies it and moves on. */
  lemma {:induction false} StripBrace(t: string)
    requires |t| >= 2 && t[0] == '{' && t[1] == '{'
    ensures StripTokens("{" + t) == "{" + StripTokens(t)
  {
    var s := "{" + t;
    assert s[..2] == "{{";
    assert s[2..] == t[1..];
    assert NameRun(s[2..]) == 0;
    assert s[1..] == t;
  }
}
