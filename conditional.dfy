/** The conditional pass shared by provision.php and the admin preview:
    `preg_replace_callback('/{{if (.*?)}}(.*?){{\/if}}/s', ...)`, modelled as an explicit left-to-right
    scanner with the regex's lazy, first-match semantics. */
module Conditional {
  import opened Text
  import opened VarMap

  const IfOpen: string := "{{if "
  const TagEnd: string := "}}"
  const IfClose: string := "{{/if}}"

  /** A matched span: the text between `{{if ` and the first `}}`, the text between that and the first
      following `{{/if}}`, and the length of the whole span. */
  datatype IfSpan = IfSpan(name: string, body: string, end: nat)

  /** The match of the conditional pattern that starts at position 0 of `s`, if there is one. Because
      both groups are lazy, the name ends at the first `}}` after `{{if ` and the body at the first
      `{{/if}}` after that; when no `{{/if}}` follows that first `}}`, none follows any later one, so
      there is no match at all (second ensures). */
  function IfSpanAt(s: string): (r: Option<IfSpan>)
    ensures r.Some? ==>
      var q := 5 + |r.value.name|;
      var e := q + 2 + |r.value.body|;
      && OccursAt(s, IfOpen, 0)
      && OccursAt(s, TagEnd, q) && NoneBetween(s, TagEnd, 5, q)
      && OccursAt(s, IfClose, e) && NoneBetween(s, IfClose, q + 2, e)
      && r.value.end == e + 7 && r.value.name == s[5..q] && r.value.body == s[q + 2..e]
    ensures r.None? ==>
      !OccursAt(s, IfOpen, 0) ||
      forall q, e :: 5 <= q && q + 2 <= e && OccursAt(s, TagEnd, q) ==> !OccursAt(s, IfClose, e)
  {
    if !OccursAt(s, IfOpen, 0) then None
    else
      match Find(s, TagEnd, 5)
      case None => None
      case Some(q) =>
        match Find(s, IfClose, q + 2)
        case None => None
        case Some(e) => Some(IfSpan(s[5..q], s[q + 2..e], e + 7))
  }

  /** The callback's test: `isset($vars['{{' . trim($name) . '}}']) && $vars[...]`. */
  predicate Keeps(vars: VarMap, name: string) {
    var v := Lookup(vars, "{{" + Trim(name) + "}}");
    v.Some? && Truthy(v.value)
  }

  /** The conditional pass: every span is replaced by its body when `Keeps` holds and by nothing
      otherwise; the scan resumes after the span, so a kept body is not scanned again. */
  function Conditionals(s: string, vars: VarMap): string
    decreases |s|
  {
    if s == [] then []
    else
      match IfSpanAt(s)
      case Some(span) => (if Keeps(vars, span.name) then span.body else []) + Conditionals(s[span.end..], vars)
      case None => [s[0]] + Conditionals(s[1..], vars)
  }

  /** Text before the first `{{if ` is copied unchanged. */
  lemma {:induction false} ConditionalsKeepPrefix(s: string, vars: VarMap, n: nat)
    requires n <= |s| && NoneBetween(s, IfOpen, 0, n)
    ensures Conditionals(s, vars) == s[..n] + Conditionals(s[n..], vars)
  {
    if n == 0 {
      assert s[..n] + Conditionals(s[n..], vars) == Conditionals(s, vars) by {
        assert s[n..] == s;
      }
    } else {
      NoneBetweenTail(s, IfOpen, n);
      ConditionalsKeepPrefix(s[1..], vars, n - 1);
      var rest := Conditionals(s[n..], vars);
      assert s[1..][n - 1..] == s[n..];
      var tail := Conditionals(s[1..], vars);
      assert tail == s[1..][..n - 1] + rest;
      ConditionalsStep(s, vars);
      HeadSplit(s, n, rest);
    }
  }

  /** Where no `{{if ` starts, one character is copied and the scan moves on. */
  lemma {:induction false} ConditionalsStep(s: string, vars: VarMap)
    requires s != [] && !OccursAt(s, IfOpen, 0)
    ensures Conditionals(s, vars) == [s[0]] + Conditionals(s[1..], vars)
  {
    assert IfSpanAt(s).None?;
  }

  /** A template without `{{if ` passes through unchanged. */
  lemma {:induction false} ConditionalsWithoutIf(s: string, vars: VarMap)
    requires Absent(s, IfOpen)
    ensures Conditionals(s, vars) == s
  {
    ConditionalsKeepPrefix(s, vars, |s|);
    assert s[..|s|] == s;
  }

  /** A span at the start of `s`: `{{if ` at 0, the first `}}` after it at `q`, the first `{{/if}}`
      after that at `e`. The span becomes its body when the variable named by the trimmed name is set
      and truthy and disappears otherwise; the scan then resumes after `{{/if}}`. */
  lemma {:induction false} ConditionalsSpan(s: string, vars: VarMap, q: nat, e: nat)
    requires OccursAt(s, IfOpen, 0)
    requires 5 <= q && OccursAt(s, TagEnd, q) && NoneBetween(s, TagEnd, 5, q)
    requires q + 2 <= e && OccursAt(s, IfClose, e) && NoneBetween(s, IfClose, q + 2, e)
    ensures Conditionals(s, vars)
         == (if Keeps(vars, s[5..q]) then s[q + 2..e] else "") + Conditionals(s[e + 7..], vars)
  {
    FindFirst(s, TagEnd, 5, q);
    FindFirst(s, IfClose, q + 2, e);
    assert IfSpanAt(s) == Some(IfSpan(s[5..q], s[q + 2..e], e + 7));
    assert s != [];
  }
}
