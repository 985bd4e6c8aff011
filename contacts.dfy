/** The `{{contacts_loop}}` expansion shared by provision.php and the admin preview: one item per stored
    contact, in stored order, numbered from 1. */
module Contacts {
  import opened Text
  import Html
  import Decimal

  /** One element of `contacts_json`; a missing field reads as the empty string, as PHP's null does in
      `htmlspecialchars` and `empty`. */
  datatype Contact = Contact(name: string, number: string, customLabel: string, photo: string)

  const MediaPath: string := "/admin/modules/quickprovisioner/media.php"

  /** The photo link: empty unless the contact has a (PHP-truthy) photo; otherwise the media script
      under `origin` (scheme, authority and host), asked for a 100x100 crop of the file for this MAC. */
  function PhotoUrl(origin: string, photo: string, mac: string): (r: string)
    ensures r == "" <==> !Truthy(photo)
    ensures Truthy(photo) ==> |r| > |origin| && r[..|origin|] == origin
    ensures Truthy(photo) ==> |r| > |origin| + |MediaPath| && r[..|origin| + |MediaPath|] == origin + MediaPath
  {
    if Truthy(photo) then
      var query := "?file=" + photo + "&mac=" + mac + "&w=100&h=100&mode=crop";
      assert (origin + MediaPath + query)[..|origin|] == origin;
      (origin + MediaPath) + query
    else ""
  }

  /** The item the contact at 0-based `position` makes of the loop body. Tokens other than these five
      are left for the final substitution. */
  function ContactItem(body: string, c: Contact, position: nat, origin: string, mac: string): string {
    var s1 := Replace(body, "{{index}}", Decimal.IntToString(position + 1));
    var s2 := Replace(s1, "{{name}}", Html.Escape(c.name));
    var s3 := Replace(s2, "{{number}}", Html.Escape(c.number));
    var s4 := Replace(s3, "{{custom_label}}", Html.Escape(c.customLabel));
    Replace(s4, "{{photo_url}}", PhotoUrl(origin, c.photo, mac))
  }

  /** The items of `cs`, the first of which stands at position `first`. */
  function ContactItems(body: string, cs: seq<Contact>, first: nat, origin: string, mac: string): string {
    if cs == [] then []
    else ContactItem(body, cs[0], first, origin, mac) + ContactItems(body, cs[1..], first + 1, origin, mac)
  }

  /** The `foreach ($contacts as $idx => $c)` loop of provision.php:148-163. */
  method ExpandContacts(body: string, cs: seq<Contact>, origin: string, mac: string) returns (built: string)
    ensures built == ContactItems(body, cs, 0, origin, mac)
  {
    built := "";
    var idx := 0;
    while idx < |cs|
      invariant 0 <= idx <= |cs|
      invariant built + ContactItems(body, cs[idx..], idx, origin, mac) == ContactItems(body, cs, 0, origin, mac)
    {
      var item := Replace(body, "{{index}}", Decimal.IntToString(idx + 1));
      item := Replace(item, "{{name}}", Html.Escape(cs[idx].name));
      item := Replace(item, "{{number}}", Html.Escape(cs[idx].number));
      item := Replace(item, "{{custom_label}}", Html.Escape(cs[idx].customLabel));
      var photoUrl := PhotoUrl(origin, cs[idx].photo, mac);
      item := Replace(item, "{{photo_url}}", photoUrl);
      assert cs[idx..][1..] == cs[idx + 1..];
      built := built + item;
      idx := idx + 1;
    }
  }

  // ---------------------------------------------------------------------------
  // Properties

  /** Decimal text has no `{`, so later replacements leave it alone. */
  lemma {:induction false} DigitsHaveNoBrace(s: string, w: string)
    requires Decimal.AllDigits(s) && |w| > 0 && w[0] == '{'
    ensures Absent(s, w)
  {
    AbsentWithoutFirstChar(s, w);
  }

  /** `{{index}}` is the 0-based position plus 1. */
  lemma {:induction false} IndexIsPositionPlusOne(c: Contact, position: nat, origin: string, mac: string)
    ensures ContactItem("{{index}}", c, position, origin, mac) == Decimal.NatToString(position + 1)
  {
    var d := Decimal.NatToString(position + 1);
    assert Decimal.IntToString(position + 1) == d;
    var t := "{{index}}";
    assert OccursAt(t, t, 0);
    assert t[|t|..] == [];
    assert Replace(t, t, d) == d + Replace([], t, d);
    assert Replace(t, t, d) == d;
    DigitsHaveNoBrace(d, "{{name}}");
    ReplaceAbsent(d, "{{name}}", Html.Escape(c.name));
    DigitsHaveNoBrace(d, "{{number}}");
    ReplaceAbsent(d, "{{number}}", Html.Escape(c.number));
    DigitsHaveNoBrace(d, "{{custom_label}}");
    ReplaceAbsent(d, "{{custom_label}}", Html.Escape(c.customLabel));
    DigitsHaveNoBrace(d, "{{photo_url}}");
    ReplaceAbsent(d, "{{photo_url}}", PhotoUrl(origin, c.photo, mac));
  }

  /** Unlike the line-key loop, the contacts loop strips nothing: a global variable in the loop body
      survives into every item, for the final substitution to fill in. */
  lemma {:induction false} GlobalTokenKeptInLoop(c: Contact, position: nat, origin: string, mac: string)
    ensures ContactItem("{{mac}}", c, position, origin, mac) == "{{mac}}"
  {
    var t := "{{mac}}";
    AbsentWhenShorter(t, "{{index}}");
    ReplaceAbsent(t, "{{index}}", Decimal.IntToString(position + 1));
    AbsentWhenShorter(t, "{{name}}");
    ReplaceAbsent(t, "{{name}}", Html.Escape(c.name));
    AbsentWhenShorter(t, "{{number}}");
    ReplaceAbsent(t, "{{number}}", Html.Escape(c.number));
    AbsentWhenShorter(t, "{{custom_label}}");
    ReplaceAbsent(t, "{{custom_label}}", Html.Escape(c.customLabel));
    AbsentWhenShorter(t, "{{photo_url}}");
    ReplaceAbsent(t, "{{photo_url}}", PhotoUrl(origin, c.photo, mac));
  }

  /** There is one item per contact, in stored order: the items of `a + b` are those of `a` followed by
      those of `b`, numbered on from where `a` ends. */
  lemma {:induction false} ContactItemsAppend(body: string, a: seq<Contact>, b: seq<Contact>, first: nat,
                                              origin: string, mac: string)
    ensures ContactItems(body, a + b, first, origin, mac)
         == ContactItems(body, a, first, origin, mac) + ContactItems(body, b, first + |a|, origin, mac)
  {
    if a == [] {
      assert a + b == b;
    } else {
      assert (a + b)[1..] == a[1..] + b;
      assert (a + b)[0] == a[0];
      ContactItemsAppend(body, a[1..], b, first + 1, origin, mac);
      var x := ContactItem(body, a[0], first, origin, mac);
      var y := ContactItems(body, a[1..], first + 1, origin, mac);
      var z := ContactItems(body, b, first + |a|, origin, mac);
      assert x + (y + z) == x + y + z;
    }
  }
}
