/** The `{{line_keys_loop}}` expansion shared by provision.php and the admin preview: the stored keys
    are sorted by `index`, and every key turns the loop body into one item. */
module LineKeys {
  import opened Text
  import opened VarMap
  import Html
  import Decimal
  import opened Tokens

  /** One element of `keys_json`: its `index`, its `type` when present, and its other fields in the
      order they were stored (for keys written by the admin page: `value` and `label`). */
  datatype Key = Key(index: int, keyType: Option<string>, fields: VarMap)

  // ---------------------------------------------------------------------------
  // usort by index (stable, as sorting is from PHP 8.0 on)

  predicate SortedByIndex(ks: seq<Key>) {
    forall i, j :: 0 <= i < j < |ks| ==> ks[i].index <= ks[j].index
  }

  /** `k` goes before the first key whose index is not smaller, so before keys with an equal index. */
  function Insert(k: Key, ks: seq<Key>): seq<Key> {
    if ks == [] || k.index <= ks[0].index then [k] + ks else [ks[0]] + Insert(k, ks[1..])
  }

  /** Insertion sort from the back: the result keeps keys of equal index in their stored order. */
  function SortByIndex(ks: seq<Key>): seq<Key> {
    if ks == [] then [] else Insert(ks[0], SortByIndex(ks[1..]))
  }

  /** The keys with index `v`, in order. */
  function OfIndex(ks: seq<Key>, v: int): (r: seq<Key>)
    ensures |r| <= |ks|
  {
    if ks == [] then [] else (if ks[0].index == v then [ks[0]] else []) + OfIndex(ks[1..], v)
  }

  lemma {:induction false} InsertPermutes(k: Key, ks: seq<Key>)
    ensures multiset(Insert(k, ks)) == multiset(ks) + multiset{k}
  {
    if ks != [] && k.index > ks[0].index {
      InsertPermutes(k, ks[1..]);
      assert ks == [ks[0]] + ks[1..];
    }
  }

  lemma {:induction false} InsertSorted(k: Key, ks: seq<Key>)
    requires SortedByIndex(ks)
    ensures SortedByIndex(Insert(k, ks))
  {
    if ks != [] && k.index > ks[0].index {
      var tail := Insert(k, ks[1..]);
      InsertSorted(k, ks[1..]);
      InsertPermutes(k, ks[1..]);
      forall j | 0 <= j < |tail|
        ensures ks[0].index <= tail[j].index
      {
        assert tail[j] in multiset(ks[1..]) + multiset{k};
        if tail[j] != k {
          assert tail[j] in ks[1..];
        }
      }
    }
  }

  lemma {:induction false} InsertOfIndex(k: Key, ks: seq<Key>, v: int)
    requires SortedByIndex(ks)
    ensures OfIndex(Insert(k, ks), v) == (if k.index == v then [k] else []) + OfIndex(ks, v)
  {
    if ks == [] {
    } else if k.index <= ks[0].index {
      assert Insert(k, ks)[1..] == ks;
    } else {
      InsertOfIndex(k, ks[1..], v);
      if k.index == v {
        assert ks[0].index != v;
      }
      assert Insert(k, ks)[1..] == Insert(k, ks[1..]);
    }
  }

  /** The sorted keys are in ascending index order. */
  lemma {:induction false} SortSorted(ks: seq<Key>)
    ensures SortedByIndex(SortByIndex(ks))
  {
    if ks != [] {
      SortSorted(ks[1..]);
      InsertSorted(ks[0], SortByIndex(ks[1..]));
    }
  }

  /** Sorting neither loses nor duplicates a key. */
  lemma {:induction false} SortPermutes(ks: seq<Key>)
    ensures multiset(SortByIndex(ks)) == multiset(ks)
  {
    if ks != [] {
      SortPermutes(ks[1..]);
      InsertPermutes(ks[0], SortByIndex(ks[1..]));
      assert ks == [ks[0]] + ks[1..];
    }
  }

  /** Sorting is stable: keys that share an index stay in their stored order. */
  lemma {:induction false} SortStable(ks: seq<Key>, v: int)
    ensures OfIndex(SortByIndex(ks), v) == OfIndex(ks, v)
  {
    if ks != [] {
      SortStable(ks[1..], v);
      SortSorted(ks[1..]);
      InsertOfIndex(ks[0], SortByIndex(ks[1..]), v);
    }
  }

  // ---------------------------------------------------------------------------
  // One item

  const IndexToken: string := "{{index}}"
  const TypeToken: string := "{{type}}"

  /** `$rawType = $k['type'] ?? 'line'`, then `type_mapping[$rawType] ?? $rawType`. */
  function MappedType(k: Key, mapping: VarMap): string {
    var raw := k.keyType.GetOr("line");
    Lookup(mapping, raw).GetOr(raw)
  }

  /** One step of the loop over the key's fields: fields named `index` or `type` are skipped, every
      other `{{name}}` is replaced by the HTML-escaped value. */
  function ApplyField(item: string, field: (string, string)): string {
    if field.0 == "index" || field.0 == "type" then item
    else Replace(item, "{{" + field.0 + "}}", Html.Escape(field.1))
  }

  function ApplyFields(item: string, fields: VarMap): string
    decreases |fields|
  {
    if fields == [] then item else ApplyFields(ApplyField(item, fields[0]), fields[1..])
  }

  /** The item one key makes of the loop body: index, mapped type (not escaped), the escaped fields,
      then every leftover `{{[a-z_]+}}` token deleted. */
  function KeyItem(body: string, k: Key, mapping: VarMap): string {
    var withIndex := Replace(body, IndexToken, Decimal.IntToString(k.index));
    var withType := Replace(withIndex, TypeToken, MappedType(k, mapping));
    StripTokens(ApplyFields(withType, k.fields))
  }

  /** The items of `ks`, concatenated in order. */
  function KeyItems(body: string, ks: seq<Key>, mapping: VarMap): string {
    if ks == [] then [] else KeyItem(body, ks[0], mapping) + KeyItems(body, ks[1..], mapping)
  }

  /** The expansion of a loop body: the items of the keys in sorted order. */
  function Expansion(body: string, keys: seq<Key>, mapping: VarMap): string {
    KeyItems(body, SortByIndex(keys), mapping)
  }

  // ---------------------------------------------------------------------------
  // The loops of provision.php:128-140

  /** The inner `foreach ($k as $keyName => $keyValue)` loop followed by the token strip. */
  method FillKeyItem(body: string, k: Key, mapping: VarMap) returns (item: string)
    ensures item == KeyItem(body, k, mapping)
  {
    item := Replace(body, IndexToken, Decimal.IntToString(k.index));
    item := Replace(item, TypeToken, MappedType(k, mapping));
    ghost var start := item;
    var i := 0;
    while i < |k.fields|
      invariant 0 <= i <= |k.fields|
      invariant ApplyFields(item, k.fields[i..]) == ApplyFields(start, k.fields)
    {
      assert k.fields[i..][1..] == k.fields[i + 1..];
      item := ApplyField(item, k.fields[i]);
      i := i + 1;
    }
    item := StripTokens(item);
  }

  /** The outer loop: sort the keys, then append one item per key. */
  method ExpandLineKeys(body: string, keys: seq<Key>, mapping: VarMap) returns (built: string)
    ensures built == Expansion(body, keys, mapping)
  {
    var sorted := SortByIndex(keys);
    built := "";
    var i := 0;
    while i < |sorted|
      invariant 0 <= i <= |sorted|
      invariant built + KeyItems(body, sorted[i..], mapping) == KeyItems(body, sorted, mapping)
    {
      var item := FillKeyItem(body, sorted[i], mapping);
      assert sorted[i..][1..] == sorted[i + 1..];
      built := built + item;
      i := i + 1;
    }
  }

  // ---------------------------------------------------------------------------
  // Properties

  /** Items follow the order of the keys they are made from. */
  lemma {:induction false} KeyItemsAppend(body: string, a: seq<Key>, b: seq<Key>, mapping: VarMap)
    ensures KeyItems(body, a + b, mapping) == KeyItems(body, a, mapping) + KeyItems(body, b, mapping)
  {
    if a == [] {
      assert a + b == b;
    } else {
      assert (a + b)[1..] == a[1..] + b;
      KeyItemsAppend(body, a[1..], b, mapping);
    }
  }

  /** A global variable used inside the loop body (any `{{name}}` that is not `{{index}}` or
      `{{type}}` and that the key has no field for, `{{mac}}` say) is a leftover token and is deleted,
      so the final substitution never sees it there. */
  lemma {:induction false} GlobalTokenDeletedInLoop(name: string, k: Key, mapping: VarMap)
    requires |name| >= 1 && forall i :: 0 <= i < |name| ==> IsNameChar(name[i])
    requires name != "index" && name != "type"
    requires forall f :: f in k.fields ==> f.0 != name
    ensures KeyItem("{{" + name + "}}", k, mapping) == ""
  {
    var t := "{{" + name + "}}";
    assert IndexToken == "{{" + "index" + "}}";
    TokenNotInOther(name, "index");
    ReplaceAbsent(t, IndexToken, Decimal.IntToString(k.index));
    assert TypeToken == "{{" + "type" + "}}";
    TokenNotInOther(name, "type");
    ReplaceAbsent(t, TypeToken, MappedType(k, mapping));
    FieldsLeaveToken(name, k.fields);
    StripLeadingToken(name, "");
    assert t + "" == t;
  }

  /** The fields of a key without a field of that name leave a lone token as it is. */
  lemma {:induction false} FieldsLeaveToken(name: string, fields: VarMap)
    requires |name| >= 1 && forall i :: 0 <= i < |name| ==> IsNameChar(name[i])
    requires forall f :: f in fields ==> f.0 != name
    ensures ApplyFields("{{" + name + "}}", fields) == "{{" + name + "}}"
    decreases |fields|
  {
    if fields != [] {
      var f := fields[0];
      assert f in fields;
      if f.0 != "index" && f.0 != "type" {
        TokenNotInOther(name, f.0);
        ReplaceAbsent("{{" + name + "}}", "{{" + f.0 + "}}", Html.Escape(f.1));
      }
      FieldsLeaveToken(name, fields[1..]);
    }
  }

  /** A token `{{name}}` holds no other token `{{f}}`: braces cannot line up inside it. */
  lemma {:induction false} TokenNotInOther(name: string, f: string)
    requires |name| >= 1 && forall i :: 0 <= i < |name| ==> IsNameChar(name[i])
    requires f != name
    ensures Absent("{{" + name + "}}", "{{" + f + "}}")
  {
    var t := "{{" + name + "}}";
    var w := "{{" + f + "}}";
    assert w[0] == '{' && w[1] == '{' && w[|f| + 2] == '}';
    forall j | 0 <= j <= |t|
      ensures !OccursAt(t, w, j)
    {
      if j + |w| <= |t| {
        var u := t[j..j + |w|];
        if j >= 2 {
          if j < |name| + 2 { assert t[j] == name[j - 2]; }
          assert u[0] == t[j] != w[0];
        } else if j == 1 {
          assert t[2] == name[0];
          assert u[1] == t[2] != w[1];
        } else if |f| < |name| {
          assert t[|f| + 2] == name[|f|];
          assert u[|f| + 2] == t[|f| + 2] != w[|f| + 2];
        } else {
          assert t[2..|t| - 2] == name && w[2..|w| - 2] == f;
          assert u == t;
        }
      }
    }
  }

  /** Two keys stored out of order come out by ascending index; with equal indexes they keep their
      stored order. */
  lemma {:induction false} ExpansionOfTwo(body: string, a: Key, b: Key, mapping: VarMap)
    ensures Expansion(body, [a, b], mapping)
         == if b.index < a.index then KeyItem(body, b, mapping) + KeyItem(body, a, mapping)
            else KeyItem(body, a, mapping) + KeyItem(body, b, mapping)
  {
    assert [a, b][1..] == [b];
    assert SortByIndex([b]) == [b];
    if b.index < a.index {
      assert Insert(a, [b]) == [b] + Insert(a, []);
      assert SortByIndex([a, b]) == [b, a];
      assert [b, a][1..] == [a];
      assert KeyItems(body, [a], mapping) == KeyItem(body, a, mapping) + KeyItems(body, [], mapping);
    } else {
      assert SortByIndex([a, b]) == [a, b];
      assert KeyItems(body, [b], mapping) == KeyItem(body, b, mapping) + KeyItems(body, [], mapping);
    }
  }
}
