/** The render pipeline that provision.php and the admin preview share: choose the template, merge the
    custom options into the variable map, run the conditional pass, expand the first line-keys block and
    the first contacts block, then substitute every variable in map order. */
module Render {
  import opened Text
  import opened VarMap
  import Html
  import opened Conditional
  import opened Tokens
  import opened LineKeys
  import opened Contacts

  const LineKeysOpen: string := "{{line_keys_loop}}"
  const LineKeysClose: string := "{{/line_keys_loop}}"
  const ContactsOpen: string := "{{contacts_loop}}"
  const ContactsClose: string := "{{/contacts_loop}}"

  // ---------------------------------------------------------------------------
  // Template selection

  /** `$override ? $override : $profile['provisioning']['template'] ?? ''`. */
  function SelectTemplate(override: string, profileTemplate: Option<string>): string {
    if Truthy(override) then override else profileTemplate.GetOr("")
  }

  /** A PHP-truthy override wins; an empty override, and also the override "0", falls back to the
      profile's template, or to the empty template when the profile has none. */
  lemma {:induction false} OverrideWinsWhenTruthy(override: string, profileTemplate: Option<string>)
    ensures Truthy(override) ==> SelectTemplate(override, profileTemplate) == override
    ensures !Truthy(override) && profileTemplate.Some? ==> SelectTemplate(override, profileTemplate) == profileTemplate.value
    ensures !Truthy(override) && profileTemplate.None? ==> SelectTemplate(override, profileTemplate) == ""
  {
  }

  // ---------------------------------------------------------------------------
  // Custom options

  /** The variable a custom option named `key` sets. */
  function Braced(key: string): (r: string)
    ensures |r| == |key| + 4 && r[2..|r| - 2] == key
  {
    "{{" + key + "}}"
  }

  lemma {:induction false} BracedInjective(a: string, b: string)
    requires Braced(a) == Braced(b)
    ensures a == b
  {
    var ra, rb := Braced(a), Braced(b);
    assert a == ra[2..|ra| - 2];
  }

  /** The value a custom option contributes: as stored (provision.php) or HTML-escaped (the preview). */
  function OptionValue(value: string, escape: bool): string {
    if escape then Html.Escape(value) else value
  }

  /** `foreach ($custom_options as $key => $value) if ($value !== '') $vars['{{'.$key.'}}'] = ...;` */
  function MergeOptions(vars: VarMap, options: VarMap, escape: bool): VarMap
    decreases |options|
  {
    if options == [] then vars
    else
      var (k, v) := options[0];
      MergeOptions(if v != "" then Put(vars, Braced(k), OptionValue(v, escape)) else vars, options[1..], escape)
  }

  method MergeCustomOptions(builtins: VarMap, options: VarMap, escape: bool) returns (vars: VarMap)
    ensures vars == MergeOptions(builtins, options, escape)
  {
    vars := builtins;
    var i := 0;
    while i < |options|
      invariant 0 <= i <= |options|
      invariant MergeOptions(vars, options[i..], escape) == MergeOptions(builtins, options, escape)
    {
      assert options[i..][1..] == options[i + 1..];
      var (key, value) := options[i];
      if value != "" {
        vars := Put(vars, Braced(key), OptionValue(value, escape));
      }
      i := i + 1;
    }
  }

  /** The keys of a decoded JSON object are distinct. */
  predicate DistinctNames(options: VarMap) {
    forall i, j :: 0 <= i < j < |options| ==> options[i].0 != options[j].0
  }

  /** A custom option with a non-empty value overrides the variable of the same name, built-in or not. */
  lemma {:induction false} OptionOverrides(vars: VarMap, options: VarMap, escape: bool, k: string, v: string)
    requires DistinctNames(options) && (k, v) in options && v != ""
    ensures Lookup(MergeOptions(vars, options, escape), Braced(k)) == Some(OptionValue(v, escape))
    decreases |options|
  {
    var (k0, v0) := options[0];
    var next := if v0 != "" then Put(vars, Braced(k0), OptionValue(v0, escape)) else vars;
    if options[0] == (k, v) {
      forall o | o in options[1..] && o.1 != ""
        ensures Braced(o.0) != Braced(k)
      {
        var j :| 1 <= j < |options| && options[j] == o;
        assert options[0].0 != options[j].0;
        if Braced(o.0) == Braced(k) { BracedInjective(o.0, k); }
      }
      OptionsLeaveOthers(next, options[1..], escape, Braced(k));
    } else {
      assert (k, v) in options[1..];
      OptionOverrides(next, options[1..], escape, k, v);
    }
  }

  /** A variable that no custom option with a non-empty value names keeps its value; in particular an
      option whose value is empty changes nothing. */
  lemma {:induction false} OptionsLeaveOthers(vars: VarMap, options: VarMap, escape: bool, name: string)
    requires forall o :: o in options && o.1 != "" ==> Braced(o.0) != name
    ensures Lookup(MergeOptions(vars, options, escape), name) == Lookup(vars, name)
    decreases |options|
  {
    if options != [] {
      var (k0, v0) := options[0];
      assert options[0] in options;
      var next := if v0 != "" then Put(vars, Braced(k0), OptionValue(v0, escape)) else vars;
      OptionsLeaveOthers(next, options[1..], escape, name);
    }
  }

  /** The keys of `a` are the first keys of `b`, in the same order. */
  predicate KeysPrefix(a: VarMap, b: VarMap) {
    |a| <= |b| && forall i :: 0 <= i < |a| ==> a[i].0 == b[i].0
  }

  lemma {:induction false} PutKeepsKeys(m: VarMap, k: string, v: string)
    ensures KeysPrefix(m, Put(m, k, v))
  {
    PutKeys(m, k, v);
    var km, kr := Keys(m), Keys(Put(m, k, v));
    forall i | 0 <= i < |m|
      ensures m[i].0 == Put(m, k, v)[i].0
    {
      assert km[i] == kr[i];
    }
  }

  lemma {:induction false} KeysPrefixTransitive(a: VarMap, b: VarMap, c: VarMap)
    requires KeysPrefix(a, b) && KeysPrefix(b, c)
    ensures KeysPrefix(a, c)
  {
  }

  /** The built-in variables keep their places at the front of the map; options only add to the end. */
  lemma {:induction false} MergeKeepsBuiltinsFirst(vars: VarMap, options: VarMap, escape: bool)
    ensures KeysPrefix(vars, MergeOptions(vars, options, escape))
    decreases |options|
  {
    if options != [] {
      var (k0, v0) := options[0];
      var next := if v0 != "" then Put(vars, Braced(k0), OptionValue(v0, escape)) else vars;
      if v0 != "" {
        PutKeepsKeys(vars, Braced(k0), OptionValue(v0, escape));
      }
      MergeKeepsBuiltinsFirst(next, options[1..], escape);
      KeysPrefixTransitive(vars, next, MergeOptions(next, options[1..], escape));
    }
  }

  // ---------------------------------------------------------------------------
  // Final substitution

  /** `foreach ($vars as $k => $v) $template = str_replace($k, $v, $template);` */
  function SubstituteAll(s: string, vars: VarMap): string
    decreases |vars|
  {
    if vars == [] then s else SubstituteAll(Replace(s, vars[0].0, vars[0].1), vars[1..])
  }

  method SubstituteVars(template: string, vars: VarMap) returns (out: string)
    ensures out == SubstituteAll(template, vars)
  {
    out := template;
    var i := 0;
    while i < |vars|
      invariant 0 <= i <= |vars|
      invariant SubstituteAll(out, vars[i..]) == SubstituteAll(template, vars)
    {
      assert vars[i..][1..] == vars[i + 1..];
      out := Replace(out, vars[i].0, vars[i].1);
      i := i + 1;
    }
  }

  /** Text that holds no variable name is left verbatim: unknown tokens stay as they are. */
  lemma {:induction false} SubstituteUntouched(s: string, vars: VarMap)
    requires forall p :: p in vars ==> Absent(s, p.0)
    ensures SubstituteAll(s, vars) == s
    decreases |vars|
  {
    if vars != [] {
      assert vars[0] in vars;
      ReplaceAbsent(s, vars[0].0, vars[0].1);
      SubstituteUntouched(s, vars[1..]);
    }
  }

  /** Substitution runs the map in order: what the first part of the map produces is the input of
      the rest. */
  lemma {:induction false} SubstituteAppend(s: string, a: VarMap, b: VarMap)
    ensures SubstituteAll(s, a + b) == SubstituteAll(SubstituteAll(s, a), b)
    decreases |a|
  {
    if a == [] {
      assert a + b == b;
    } else {
      assert (a + b)[1..] == a[1..] + b;
      SubstituteAppend(Replace(s, a[0].0, a[0].1), a[1..], b);
    }
  }

  /** A value inserted by an earlier variable is rewritten by a later one: with `{{a}}` mapped to
      `{{b}}` before `{{b}}` is mapped to `x`, the text `{{a}}` ends up as `x`; in the opposite order it
      ends up as `{{b}}`. */
  lemma {:induction false} LaterVariableRewritesEarlierValue()
    ensures SubstituteAll("{{a}}", [("{{a}}", "{{b}}"), ("{{b}}", "x")]) == "x"
    ensures SubstituteAll("{{a}}", [("{{b}}", "x"), ("{{a}}", "{{b}}")]) == "{{b}}"
  {
    var a, b := "{{a}}", "{{b}}";
    WholeReplace(a, b);
    WholeReplace(b, "x");
    assert a[2] != b[2];
    NotItself(a, b);
    ReplaceAbsent(a, b, "x");
    NotItself(b, a);
    ReplaceAbsent(b, a, b);
    assert SubstituteAll(a, [(a, b), (b, "x")]) == SubstituteAll(b, [(b, "x")]);
    assert SubstituteAll(a, [(b, "x"), (a, b)]) == SubstituteAll(a, [(a, b)]);
  }

  /** Two different strings of the same length do not occur in each other. */
  lemma {:induction false} NotItself(s: string, w: string)
    requires |s| == |w| && s != w
    ensures Absent(s, w)
  {
    forall j | 0 <= j <= |s|
      ensures !OccursAt(s, w, j)
    {
      if j == 0 { assert s[0..|w|] == s; }
    }
  }

  // ---------------------------------------------------------------------------
  // Loop passes and the pipeline

  /** `preg_match` of the block, then `str_replace($matches[0], $builtLoop, $template)`. */
  function LineKeysPass(s: string, keys: seq<Key>, mapping: VarMap): string {
    match FirstBlock(s, LineKeysOpen, LineKeysClose)
    case None => s
    case Some(b) => Replace(s, s[b.start..b.end], Expansion(b.body, keys, mapping))
  }

  function ContactsPass(s: string, contacts: seq<Contact>, origin: string, mac: string): string {
    match FirstBlock(s, ContactsOpen, ContactsClose)
    case None => s
    case Some(b) => Replace(s, s[b.start..b.end], ContactItems(b.body, contacts, 0, origin, mac))
  }

  /** The whole transformation of a selected template. `origin` and `mac` are what the photo links of
      the contacts loop are built from. */
  function Rendered(template: string, vars: VarMap, keys: seq<Key>, mapping: VarMap,
                    contacts: seq<Contact>, origin: string, mac: string): string
  {
    var afterIf := Conditionals(template, vars);
    var afterKeys := LineKeysPass(afterIf, keys, mapping);
    var afterContacts := ContactsPass(afterKeys, contacts, origin, mac);
    SubstituteAll(afterContacts, vars)
  }

  /** The top-level statements of provision.php:114-169, one after the other. */
  method RenderTemplate(template: string, vars: VarMap, keys: seq<Key>, mapping: VarMap,
                        contacts: seq<Contact>, origin: string, mac: string) returns (out: string)
    ensures out == Rendered(template, vars, keys, mapping, contacts, origin, mac)
  {
    out := Conditionals(template, vars);
    var keysBlock := FirstBlock(out, LineKeysOpen, LineKeysClose);
    if keysBlock.Some? {
      var b := keysBlock.value;
      var built := ExpandLineKeys(b.body, keys, mapping);
      out := Replace(out, out[b.start..b.end], built);
    }
    var contactsBlock := FirstBlock(out, ContactsOpen, ContactsClose);
    if contactsBlock.Some? {
      var b := contactsBlock.value;
      var built := ExpandContacts(b.body, contacts, origin, mac);
      out := Replace(out, out[b.start..b.end], built);
    }
    out := SubstituteVars(out, vars);
  }

  // ---------------------------------------------------------------------------
  // Properties of the loop passes

  /** The block is expanded where it stands; text before it is kept, and later copies of exactly the
      same block text are replaced by the same expansion. */
  lemma {:induction false} LineKeysBlockInPlace(s: string, keys: seq<Key>, mapping: VarMap)
    requires FirstBlock(s, LineKeysOpen, LineKeysClose).Some?
    ensures
      var b := FirstBlock(s, LineKeysOpen, LineKeysClose).value;
      var built := Expansion(b.body, keys, mapping);
      LineKeysPass(s, keys, mapping) == s[..b.start] + built + Replace(s[b.end..], s[b.start..b.end], built)
  {
    var b := FirstBlock(s, LineKeysOpen, LineKeysClose).value;
    BlockReplacedInPlace(s, LineKeysOpen, LineKeysClose, Expansion(b.body, keys, mapping));
  }

  /** Text without `{` around two identical copies of a block whose body has no `{`: both copies become
      the expansion. */
  lemma {:induction false} IdenticalBlocksBothExpanded(body: string, x: string, keys: seq<Key>, mapping: VarMap)
    requires forall i :: 0 <= i < |body| ==> body[i] != '{'
    requires forall i :: 0 <= i < |x| ==> x[i] != '{'
    ensures
      var m := LineKeysOpen + body + LineKeysClose;
      var built := Expansion(body, keys, mapping);
      LineKeysPass(m + x + m, keys, mapping) == built + x + built
  {
    var m := LineKeysOpen + body + LineKeysClose;
    var built := Expansion(body, keys, mapping);
    TwoCopies(LineKeysOpen, body, LineKeysClose, x, built);
    var s := m + x + m;
    assert LineKeysPass(s, keys, mapping) == Replace(s, s[0..|m|], built);
  }
}
