/** page.quickprovisioner.php: the admin page. Modelled here are its local-network gate, the in-page
    editors of the device's line keys and contacts (whose arrays become `keys_json` and
    `contacts_json` when the device is saved), and its small helpers: the page selector, the
    "time ago" text and `escapeHtml`. */
module Page {
  import opened Text
  import opened VarMap
  import Html
  import Decimal
  import opened LineKeys
  import opened Contacts
  import Provision

  // ---------------------------------------------------------------------------
  // The local-network gate (page.quickprovisioner.php:2-13)

  /** `None` when the page is served, else the text the script dies with. The test is the same
      classifier as provision.php's. */
  function AdminGate(remoteAddr: string): (r: Option<string>)
    ensures r.None? <==> Provision.IsLocalNetwork(remoteAddr)
  {
    if Provision.IsLocalNetwork(remoteAddr) then None
    else Some("Remote access denied. Admin UI is local network only.")
  }

  /** The page opens for `::1` and addresses in 127/8, 10/8, 192.168/16 and 172.16/12, and for no other
      address. */
  lemma {:induction false} AdminGateLocalOnly(remoteAddr: string)
    ensures AdminGate(remoteAddr).None? <==>
      remoteAddr == "::1" ||
      exists i :: 0 <= i < |Provision.LocalPrefixes| && OccursAt(remoteAddr, Provision.LocalPrefixes[i], 0)
  {
    Provision.LocalNetworkPrefixes(remoteAddr);
  }

  // ---------------------------------------------------------------------------
  // Line keys

  /** `currentKeys.find(k => k.index === index)`: the position of the first key with that index. */
  function FindKey(ks: seq<Key>, index: int): (r: Option<nat>)
    ensures r.Some? ==> r.value < |ks| && ks[r.value].index == index
    ensures r.Some? ==> forall j :: 0 <= j < r.value ==> ks[j].index != index
    ensures r.None? ==> forall j :: 0 <= j < |ks| ==> ks[j].index != index
  {
    if ks == [] then None
    else if ks[0].index == index then Some(0)
    else match FindKey(ks[1..], index)
      case None => None
      case Some(p) => Some(p + 1)
  }

  /** A key as `saveKey` leaves it: the type set, `value` and `label` assigned (in place when present,
      appended otherwise), every other field kept. */
  function UpdatedKey(k: Key, keyType: string, value: string, keyLabel: string): Key {
    Key(k.index, Some(keyType), Put(Put(k.fields, "value", value), "label", keyLabel))
  }

  /** The object `saveKey` pushes. */
  function NewKey(index: int, keyType: string, value: string, keyLabel: string): Key {
    Key(index, Some(keyType), [("value", value), ("label", keyLabel)])
  }

  /** The keys after `saveKey`: the first key with the index is updated where it stands, and only when
      there is none is a new key appended. */
  function SavedKeys(ks: seq<Key>, index: int, keyType: string, value: string, keyLabel: string): seq<Key> {
    match FindKey(ks, index)
    case Some(i) => ks[i := UpdatedKey(ks[i], keyType, value, keyLabel)]
    case None => ks + [NewKey(index, keyType, value, keyLabel)]
  }

  /** The keys after `clearKey`: `filter(k => k.index !== index)`. */
  function Without(ks: seq<Key>, index: int): (r: seq<Key>)
    ensures |r| <= |ks|
  {
    if ks == [] then [] else (if ks[0].index != index then [ks[0]] else []) + Without(ks[1..], index)
  }

  /** No two keys share an index. */
  predicate UniqueIndexes(ks: seq<Key>) {
    forall i, j :: 0 <= i < j < |ks| ==> ks[i].index != ks[j].index
  }

  /** The key editor's state: the global `currentKeys` array. */
  class KeyEditor {
    var keys: seq<Key>

    /** `currentKeys = JSON.parse(d.keys_json) || []` when a device is loaded. */
    constructor (initial: seq<Key>)
      ensures keys == initial
    {
      keys := initial;
    }

    /** `editKey(index)`: what the dialog shows for a key, with `||` defaults: type `line` when missing
        or empty, value and label empty when missing. */
    function KeyForm(index: int): (r: (string, string, string))
      reads this
      ensures r.0 != ""
    {
      match FindKey(keys, index)
      case None => ("line", "", "")
      case Some(i) =>
        var k := keys[i];
        (if k.keyType.Some? && k.keyType.value != "" then k.keyType.value else "line",
         Lookup(k.fields, "value").GetOr(""), Lookup(k.fields, "label").GetOr(""))
    }

    /** `saveKey()` (page.quickprovisioner.php:661-676). */
    method SaveKey(index: int, keyType: string, value: string, keyLabel: string)
      modifies this
      ensures keys == SavedKeys(old(keys), index, keyType, value, keyLabel)
    {
      var i := 0;
      while i < |keys| && keys[i].index != index
        invariant 0 <= i <= |keys|
        invariant forall j :: 0 <= j < i ==> keys[j].index != index
      {
        i := i + 1;
      }
      if i < |keys| {
        assert FindKey(keys, index) == Some(i);
        keys := keys[i := UpdatedKey(keys[i], keyType, value, keyLabel)];
      } else {
        keys := keys + [NewKey(index, keyType, value, keyLabel)];
      }
    }

    /** `clearKey()` (page.quickprovisioner.php:678-683). */
    method ClearKey(index: int)
      modifies this
      ensures keys == Without(old(keys), index)
    {
      var kept: seq<Key> := [];
      var i := 0;
      while i < |keys|
        invariant 0 <= i <= |keys|
        invariant kept + Without(keys[i..], index) == Without(keys, index)
      {
        assert keys[i..][1..] == keys[i + 1..];
        if keys[i].index != index {
          kept := kept + [keys[i]];
        }
        i := i + 1;
      }
      keys := kept;
    }
  }

  /** A key without a stored entry is shown as a `line` key with empty value and label. */
  lemma {:induction false} KeyFormDefaults(e: KeyEditor, index: int)
    requires forall j :: 0 <= j < |e.keys| ==> e.keys[j].index != index
    ensures e.KeyForm(index) == ("line", "", "")
  {
  }

  /** After `saveKey` the key is found under its index with what was saved: a key with a non-empty
      type opens in the dialog exactly as it was saved. */
  lemma {:induction false} SaveKeyThenFind(ks: seq<Key>, index: int, keyType: string, value: string, keyLabel: string)
    ensures var r := SavedKeys(ks, index, keyType, value, keyLabel);
      FindKey(r, index).Some? &&
      var k := r[FindKey(r, index).value];
      k.keyType == Some(keyType) && Lookup(k.fields, "value") == Some(value) && Lookup(k.fields, "label") == Some(keyLabel)
  {
    var r := SavedKeys(ks, index, keyType, value, keyLabel);
    match FindKey(ks, index)
    case Some(i) =>
      FindKeySame(ks, r, index, i);
    case None =>
      FindKeySame(ks, r, index, |ks|);
  }

  /** Two key lists that agree before position `i` and both have index `index` first at `i`. */
  lemma {:induction false} FindKeySame(ks: seq<Key>, r: seq<Key>, index: int, i: nat)
    requires i < |r| && r[i].index == index
    requires i <= |ks| && forall j :: 0 <= j < i ==> r[j] == ks[j]
    requires forall j :: 0 <= j < i ==> ks[j].index != index
    ensures FindKey(r, index) == Some(i)
  {
    match FindKey(r, index)
    case None =>
    case Some(p) =>
  }

  /** `saveKey` only touches the first key with the index, or adds one at the end: every other key
      keeps its place and contents. */
  lemma {:induction false} SaveKeyKeepsOthers(ks: seq<Key>, index: int, keyType: string, value: string, keyLabel: string)
    ensures var r := SavedKeys(ks, index, keyType, value, keyLabel);
      (|r| == |ks| || |r| == |ks| + 1) &&
      forall j :: 0 <= j < |ks| && ks[j].index != index ==> r[j] == ks[j]
  {
    var r := SavedKeys(ks, index, keyType, value, keyLabel);
    match FindKey(ks, index)
    case Some(i) =>
      assert r == ks[i := UpdatedKey(ks[i], keyType, value, keyLabel)];
    case None =>
      assert r == ks + [NewKey(index, keyType, value, keyLabel)];
  }

  /** `saveKey` never creates a second key with the same index. */
  lemma {:induction false} SaveKeyNoDuplicate(ks: seq<Key>, index: int, keyType: string, value: string, keyLabel: string)
    requires UniqueIndexes(ks)
    ensures UniqueIndexes(SavedKeys(ks, index, keyType, value, keyLabel))
  {
    var r := SavedKeys(ks, index, keyType, value, keyLabel);
    forall i, j | 0 <= i < j < |r|
      ensures r[i].index != r[j].index
    {
      if FindKey(ks, index).None? && j == |ks| {
        assert r[i] == ks[i];
      }
    }
  }

  /** `clearKey` leaves no key with the index. */
  lemma {:induction false} ClearKeyRemovesAll(ks: seq<Key>, index: int)
    ensures forall k :: k in Without(ks, index) ==> k.index != index
  {
    if ks != [] { ClearKeyRemovesAll(ks[1..], index); }
  }

  /** `clearKey` keeps every key with another index. */
  lemma {:induction false} ClearKeyKeepsOthers(ks: seq<Key>, index: int)
    ensures forall k :: k in ks && k.index != index ==> k in Without(ks, index)
  {
    if ks != [] {
      ClearKeyKeepsOthers(ks[1..], index);
      assert forall k :: k in ks ==> k == ks[0] || k in ks[1..];
    }
  }

  /** `clearKey` keeps the order of what it keeps: it works on each part of a split list alone. */
  lemma {:induction false} ClearKeyKeepsOrder(a: seq<Key>, b: seq<Key>, index: int)
    ensures Without(a + b, index) == Without(a, index) + Without(b, index)
  {
    if a == [] {
      assert a + b == b;
    } else {
      assert (a + b)[1..] == a[1..] + b;
      ClearKeyKeepsOrder(a[1..], b, index);
    }
  }

  /** Clearing after saving is the same as clearing: `clearKey` undoes `saveKey` for that index. */
  lemma {:induction false} ClearUndoesSave(ks: seq<Key>, index: int, keyType: string, value: string, keyLabel: string)
    ensures Without(SavedKeys(ks, index, keyType, value, keyLabel), index) == Without(ks, index)
  {
    match FindKey(ks, index)
    case None =>
      ClearKeyKeepsOrder(ks, [NewKey(index, keyType, value, keyLabel)], index);
      assert Without([NewKey(index, keyType, value, keyLabel)], index) == [];
    case Some(i) =>
      var u := UpdatedKey(ks[i], keyType, value, keyLabel);
      UpdateSplit(ks, i, u);
      WithoutSwap(ks[..i], u, ks[i], ks[i + 1..], index);
  }

  /** A list with one element replaced, cut around that element. */
  lemma {:induction false} UpdateSplit(ks: seq<Key>, i: nat, u: Key)
    requires i < |ks|
    ensures ks[i := u] == ks[..i] + [u] + ks[i + 1..]
    ensures ks == ks[..i] + [ks[i]] + ks[i + 1..]
  {
  }

  /** Two lists that differ only in one key of the cleared index are cleared alike. */
  lemma {:induction false} WithoutSwap(a: seq<Key>, x: Key, y: Key, b: seq<Key>, index: int)
    requires x.index == index && y.index == index
    ensures Without(a + [x] + b, index) == Without(a + [y] + b, index)
  {
    ClearKeyKeepsOrder(a + [x], b, index);
    ClearKeyKeepsOrder(a, [x], index);
    ClearKeyKeepsOrder(a + [y], b, index);
    ClearKeyKeepsOrder(a, [y], index);
    assert Without([x], index) == [] && Without([y], index) == [];
  }

  // ---------------------------------------------------------------------------
  // Contacts

  const EmptyContact: Contact := Contact("", "", "", "")

  /** The contacts after `saveContact` at `idx`: a position inside the list is overwritten, a position
      at or past its end appends. A negative position only sets a property JSON does not save, so the
      saved list is unchanged. */
  function SavedContacts(cs: seq<Contact>, idx: int, c: Contact): seq<Contact> {
    if idx < |cs| then (if idx >= 0 then cs[idx := c] else cs) else cs + [c]
  }

  /** Where `splice(idx, 1)` starts: a negative index counts from the end, and the start is clamped to
      the list. */
  function SpliceStart(idx: int, n: nat): (s: nat)
    ensures s <= n
  {
    if idx < 0 then (if n + idx < 0 then 0 else n + idx) else if idx > n then n else idx
  }

  /** The contacts after `splice(idx, 1)`. */
  function Spliced(cs: seq<Contact>, idx: int): (r: seq<Contact>)
    ensures |r| == |cs| || |r| == |cs| - 1
  {
    var s := SpliceStart(idx, |cs|);
    if s < |cs| then cs[..s] + cs[s + 1..] else cs
  }

  /** The contact editor's state: the global `currentContacts` array. */
  class ContactEditor {
    var contacts: seq<Contact>

    /** `currentContacts = JSON.parse(d.contacts_json) || []` when a device is loaded. */
    constructor (initial: seq<Contact>)
      ensures contacts == initial
    {
      contacts := initial;
    }

    /** `editContact(idx)`: the dialog's fields; a position with no contact shows empty fields. */
    function ContactForm(idx: int): (c: Contact)
      reads this
      ensures 0 <= idx < |contacts| ==> c == contacts[idx]
      ensures !(0 <= idx < |contacts|) ==> c == EmptyContact
    {
      if 0 <= idx < |contacts| then contacts[idx] else EmptyContact
    }

    /** `saveContact()` (page.quickprovisioner.php:953-968). */
    method SaveContact(idx: int, c: Contact)
      modifies this
      ensures contacts == SavedContacts(old(contacts), idx, c)
    {
      if idx < |contacts| {
        if idx >= 0 {
          contacts := contacts[idx := c];
        }
      } else {
        contacts := contacts + [c];
      }
    }

    /** `removeContact(idx)` (page.quickprovisioner.php:970-975): nothing happens unless the user
        confirms. */
    method RemoveContact(idx: int, confirmed: bool)
      modifies this
      ensures contacts == if confirmed then Spliced(old(contacts), idx) else old(contacts)
    {
      if confirmed {
        var s := SpliceStart(idx, |contacts|);
        if s < |contacts| {
          contacts := contacts[..s] + contacts[s + 1..];
        }
      }
    }
  }

  /** Saving at a position inside the list overwrites that contact and nothing else; saving at or past
      the end appends, so the new contact is numbered last in the contacts loop. */
  lemma {:induction false} SaveContactPlacement(cs: seq<Contact>, idx: int, c: Contact, body: string, origin: string, mac: string)
    ensures 0 <= idx < |cs| ==>
      var r := SavedContacts(cs, idx, c);
      |r| == |cs| && r[idx] == c && forall j :: 0 <= j < |cs| && j != idx ==> r[j] == cs[j]
    ensures idx >= |cs| ==>
      ContactItems(body, SavedContacts(cs, idx, c), 0, origin, mac)
        == ContactItems(body, cs, 0, origin, mac) + ContactItem(body, c, |cs|, origin, mac)
  {
    if idx >= |cs| {
      ContactItemsAppend(body, cs, [c], 0, origin, mac);
      assert ContactItems(body, [c], |cs|, origin, mac) == ContactItem(body, c, |cs|, origin, mac) + [];
    }
  }

  /** Removing a listed contact deletes exactly it and shifts the later ones down by one. */
  lemma {:induction false} RemoveContactShifts(cs: seq<Contact>, idx: int)
    requires 0 <= idx < |cs|
    ensures var r := Spliced(cs, idx);
      |r| == |cs| - 1 &&
      (forall j :: 0 <= j < idx ==> r[j] == cs[j]) &&
      (forall j :: idx <= j < |r| ==> r[j] == cs[j + 1]) &&
      multiset(r) + multiset{cs[idx]} == multiset(cs)
  {
    assert cs == cs[..idx] + [cs[idx]] + cs[idx + 1..];
  }

  /** A negative index counts from the end (`-1` is the last contact); one past the end removes
      nothing. */
  lemma {:induction false} RemoveContactOutside(cs: seq<Contact>, idx: int)
    ensures -|cs| <= idx < 0 ==> Spliced(cs, idx) == Spliced(cs, |cs| + idx)
    ensures idx >= |cs| ==> Spliced(cs, idx) == cs
  {
  }

  /** Removing the contact just appended gives the list back. */
  lemma {:induction false} RemoveUndoesAppend(cs: seq<Contact>, idx: int, c: Contact)
    requires idx >= |cs|
    ensures Spliced(SavedContacts(cs, idx, c), |cs|) == cs
  {
    assert (cs + [c])[..|cs|] == cs;
  }

  // ---------------------------------------------------------------------------
  // The page selector (page.quickprovisioner.php:583-593)

  /** `Math.ceil(max_line_keys / 10)` for a whole number of keys; a count of zero or less gives no
      page. */
  function PageCount(maxLineKeys: int): (n: nat) {
    if maxLineKeys <= 0 then 0 else (maxLineKeys + 9) / 10
  }

  function PageOption(i: nat): string {
    "<option value=\"" + Decimal.NatToString(i) + "\">Page " + Decimal.NatToString(i) + "</option>"
  }

  /** Ten keys to a page: the pages hold every key, and the last page is not empty. */
  lemma {:induction false} PageCountIsCeiling(maxLineKeys: int)
    ensures maxLineKeys > 0 ==> (PageCount(maxLineKeys) - 1) * 10 < maxLineKeys <= PageCount(maxLineKeys) * 10
    ensures maxLineKeys <= 0 ==> PageCount(maxLineKeys) == 0
  {
  }

  /** `updatePageSelect()`: `None` when the model has no profile (the selector is left alone), else the
      options of pages 1 to the page count. `maxLineKeys` is `None` when the profile has no whole
      number there (the count is then NaN and no option is made). */
  method UpdatePageSelect(hasProfile: bool, maxLineKeys: Option<int>) returns (options: Option<seq<string>>)
    ensures !hasProfile ==> options.None?
    ensures hasProfile ==> options.Some?
    ensures hasProfile && maxLineKeys.None? ==> options == Some([])
    ensures hasProfile && maxLineKeys.Some? ==>
      |options.value| == PageCount(maxLineKeys.value) &&
      forall i :: 0 <= i < |options.value| ==> options.value[i] == PageOption(i + 1)
  {
    if !hasProfile {
      return None;
    }
    var maxPages := if maxLineKeys.Some? then PageCount(maxLineKeys.value) else 0;
    var list: seq<string> := [];
    var i := 1;
    while i <= maxPages
      invariant 1 <= i <= maxPages + 1 || (maxPages == 0 && i == 1)
      invariant |list| == i - 1
      invariant forall j :: 0 <= j < |list| ==> list[j] == PageOption(j + 1)
    {
      list := list + [PageOption(i)];
      i := i + 1;
    }
    options := Some(list);
  }

  // ---------------------------------------------------------------------------
  // formatTimeAgo (page.quickprovisioner.php:1150-1168)

  /** The units in the order the loop tries them, with their length in seconds. */
  const Intervals: seq<(string, int)> :=
    [("year", 31536000), ("month", 2592000), ("week", 604800), ("day", 86400), ("hour", 3600), ("minute", 60)]

  /** `n unit ago`, with an `s` when `n` is more than 1. */
  function Ago(n: nat, unit: string): string {
    Decimal.NatToString(n) + " " + unit + (if n > 1 then "s" else "") + " ago"
  }

  /** The text for an age of `seconds`, by the largest unit it reaches. */
  function TimeAgo(seconds: int): string {
    if seconds >= 31536000 then Ago(seconds / 31536000, "year")
    else if seconds >= 2592000 then Ago(seconds / 2592000, "month")
    else if seconds >= 604800 then Ago(seconds / 604800, "week")
    else if seconds >= 86400 then Ago(seconds / 86400, "day")
    else if seconds >= 3600 then Ago(seconds / 3600, "hour")
    else if seconds >= 60 then Ago(seconds / 60, "minute")
    else "just now"
  }

  /** `formatTimeAgo(date)` with `new Date() - date` passed in as `elapsedMs`: the loop over the
      interval table returns at the first unit whose whole count is at least 1. */
  method FormatTimeAgo(elapsedMs: int) returns (text: string)
    ensures text == TimeAgo(elapsedMs / 1000)
  {
    var seconds := elapsedMs / 1000;
    var i := 0;
    while i < |Intervals|
      invariant 0 <= i <= |Intervals|
      invariant forall j :: 0 <= j < i ==> seconds < Intervals[j].1
    {
      var (unit, length) := Intervals[i];
      var interval := seconds / length;
      WholeUnits(seconds, length);
      if interval >= 1 {
        TimeAgoAt(seconds, i);
        return Ago(interval, unit);
      }
      i := i + 1;
    }
    assert seconds < Intervals[5].1;
    return "just now";
  }

  /** A floor quotient by a positive length is at least 1 exactly when the length is reached. */
  lemma {:induction false} WholeUnits(seconds: int, length: int)
    requires length > 0
    ensures seconds / length >= 1 <==> seconds >= length
  {
    if seconds >= length {
      assert seconds / length * length + seconds % length == seconds;
      assert seconds % length < length;
    } else if seconds >= 0 {
      assert seconds / length == 0;
    } else {
      assert seconds / length * length + seconds % length == seconds;
      assert seconds % length >= 0;
    }
  }

  /** The first unit the seconds reach decides the text. */
  lemma {:induction false} TimeAgoAt(seconds: int, i: nat)
    requires i < |Intervals| && seconds >= Intervals[i].1
    requires forall j :: 0 <= j < i ==> seconds < Intervals[j].1
    ensures TimeAgo(seconds) == Ago(seconds / Intervals[i].1, Intervals[i].0)
  {
    if i > 0 { assert seconds < Intervals[0].1; }
    if i > 1 { assert seconds < Intervals[1].1; }
    if i > 2 { assert seconds < Intervals[2].1; }
    if i > 3 { assert seconds < Intervals[3].1; }
    if i > 4 { assert seconds < Intervals[4].1; }
  }

  /** The text is `just now` exactly when less than a minute has passed (a date in the future
      included). */
  lemma {:induction false} JustNowUnderAMinute(seconds: int)
    ensures TimeAgo(seconds) == "just now" <==> seconds < 60
  {
    if seconds >= 60 {
      var t := TimeAgo(seconds);
      assert exists n: nat, u :: t == Ago(n, u);
      var n: nat, u :| t == Ago(n, u);
      assert t[0] == Decimal.NatToString(n)[0];
    }
  }

  /** One unit is singular: anything from 60 to 119 seconds is `1 minute ago`. */
  lemma {:induction false} OneMinuteAgo(seconds: int)
    requires 60 <= seconds < 120
    ensures TimeAgo(seconds) == "1 minute ago"
  {
    assert seconds / 60 == 1;
    assert Decimal.NatToString(1) == "1";
  }

  /** Two units or more are plural: anything from 7200 to 10799 seconds is `2 hours ago`. */
  lemma {:induction false} TwoHoursAgo(seconds: int)
    requires 7200 <= seconds < 10800
    ensures TimeAgo(seconds) == "2 hours ago"
  {
    assert seconds / 3600 == 2;
    assert Decimal.NatToString(2) == "2";
  }

  // ---------------------------------------------------------------------------
  // escapeHtml (page.quickprovisioner.php:1170-1179)

  /** The five entities of `escapeHtml`; the same map as `htmlspecialchars`. */
  lemma {:induction false} EscapeHtmlEntities()
    ensures Html.Escape("&") == "&amp;" && Html.Escape("<") == "&lt;" && Html.Escape(">") == "&gt;"
    ensures Html.Escape("\"") == "&quot;" && Html.Escape("'") == "&#039;"
  {
    assert "&"[1..] == [];
    assert "<"[1..] == [];
    assert ">"[1..] == [];
    assert "\""[1..] == [];
    assert "'"[1..] == [];
  }
}
