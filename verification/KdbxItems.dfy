/**
 * Items as KDBX entries (itemsToKdbxEntries of web/export.js) and back (kdbxEntriesToItems of web/kdbx-read.js).
 */
module KdbxItems {
  import opened Sequences
  import opened Strings
  import opened Wrappers
  import opened VaultItem

  /** The otpauth link of an item, empty without a secret, and the secret of such a link: not part of this model. */
  datatype Otp = Otp(link: Item -> string, secretFrom: string -> string)

  // ---- Numbered labels ----

  function Digit(d: nat): char
    requires d < 10
  {
    "0123456789"[d]
  }

  function Decimal(n: nat): (s: string)
    ensures s != ""
  {
    if n < 10 then [Digit(n)] else Decimal(n / 10) + [Digit(n % 10)]
  }

  lemma DigitInjective(a: nat, b: nat)
    requires a < 10 && b < 10 && Digit(a) == Digit(b)
    ensures a == b
  {
    assert forall d: nat :: d < 10 ==> Digit(d) as int == '0' as int + d;
  }

  lemma {:induction false} DecimalInjective(a: nat, b: nat)
    requires Decimal(a) == Decimal(b)
    ensures a == b
    decreases a + b
  {
    hide Digit;
    var s, t := Decimal(a), Decimal(b);
    assert s[|s| - 1] == Digit(a % 10) && t[|t| - 1] == Digit(b % 10);
    DigitInjective(a % 10, b % 10);
    if a >= 10 && b >= 10 {
      assert s[..|s| - 1] == Decimal(a / 10) && t[..|t| - 1] == Decimal(b / 10);
      DecimalInjective(a / 10, b / 10);
    }
  }

  function Numbered(base: string, n: nat): string {
    base + " (" + Decimal(n) + ")"
  }

  lemma NumberedInjective(base: string, a: nat, b: nat)
    requires Numbered(base, a) == Numbered(base, b)
    ensures a == b
  {
    hide Decimal;
    var s, k := Numbered(base, a), |base| + 2;
    assert s[k..|s| - 1] == Decimal(a);
    assert Numbered(base, b)[k..|s| - 1] == Decimal(b);
    DecimalInjective(a, b);
  }

  /** The used keys that are the label with a number from n on. */
  ghost function Taken(base: string, used: set<string>, n: nat): set<string> {
    set s | s in used && IsNumbered(base, s, n)
  }

  ghost predicate IsNumbered(base: string, s: string, n: nat) {
    exists k: nat :: k >= n && s == Numbered(base, k)
  }

  /** One used number less to come. */
  lemma TakenShrinks(base: string, used: set<string>, n: nat)
    requires Numbered(base, n) in used
    ensures Taken(base, used, n + 1) < Taken(base, used, n)
  {
    var key := Numbered(base, n);
    assert IsNumbered(base, key, n);
    if IsNumbered(base, key, n + 1) {
      var k: nat :| k >= n + 1 && key == Numbered(base, k);
      NumberedInjective(base, n, k);
    }
    assert key in Taken(base, used, n) && key !in Taken(base, used, n + 1);
    forall s | s in Taken(base, used, n + 1) ensures s in Taken(base, used, n) {
      assert IsNumbered(base, s, n + 1);
    }
  }

  /** The first numbered label from n on that is not used. */
  function FreeLabel(base: string, used: set<string>, n: nat): (key: string)
    ensures key !in used
    decreases Taken(base, used, n)
  {
    if Numbered(base, n) in used then TakenShrinks(base, used, n); FreeLabel(base, used, n + 1) else Numbered(base, n)
  }

  function KeyFor(base: string, used: set<string>): (key: string)
    ensures key !in used
  {
    if base in used then FreeLabel(base, used, 2) else base
  }

  /** The while loop that renames; it ends because the numbers it tries are all different and the used keys finite. */
  method ChooseKey(base: string, used: set<string>) returns (key: string)
    ensures key == KeyFor(base, used)
  {
    key := base;
    var n := 2;
    while key in used
      invariant n >= 2 && (n == 2 ==> key == base) && (n > 2 ==> key == Numbered(base, n - 1))
      invariant n > 2 ==> base in used && FreeLabel(base, used, 2) == FreeLabel(base, used, n - 1)
      decreases if n == 2 then 1 else 0, Taken(base, used, if n == 2 then 2 else n - 1)
    {
      if n > 2 {
        TakenShrinks(base, used, n - 1);
      }
      key := Numbered(base, n);
      n := n + 1;
    }
  }

  // ---- Items to entries ----

  const STANDARD: set<string> := {"Title", "UserName", "Password", "URL", "Notes"}
  const CARD_KEYS: set<string> := {"Card Holder", "Card Number", "Card Brand", "Card Expiry", "Card CVV", "Card PIN"}
  const IDENTITY_KEYS: set<string> := {"Full Name", "Email", "Phone", "Address", "Company"}

  function StandardFields(d: Item): seq<Field> {
    [Field("Title", d.title, false), Field("UserName", d.username, false), Field("Password", d.password, true),
     Field("URL", d.url, false), Field("Notes", d.notes, false)]
  }

  function OtpFields(otp: Otp, d: Item): seq<Field> {
    if otp.link(d) == "" then [] else [Field("otp", otp.link(d), true)]
  }

  function Keys(fields: seq<Field>): (r: seq<string>)
    ensures |r| == |fields| && forall k :: 0 <= k < |r| ==> r[k] == fields[k].key
  {
    seq(|fields|, k requires 0 <= k < |fields| => fields[k].key)
  }

  function KeySet(fields: seq<Field>): set<string> {
    set k | k in Keys(fields)
  }

  function LabelOf(c: CustomField): string {
    if c.name == "" then "Field" else c.name
  }

  predicate Blank(c: CustomField) {
    c.name == "" && c.value == ""
  }

  /** The fields before the custom ones, then each custom field under a key not used before. */
  function WithCustom(fields: seq<Field>, custom: seq<CustomField>): (r: seq<Field>)
    ensures fields <= r
    decreases |custom|
  {
    if custom == [] then fields
    else if Blank(custom[0]) then WithCustom(fields, custom[1..])
    else WithCustom(fields + [Field(KeyFor(LabelOf(custom[0]), KeySet(fields)), custom[0].value, custom[0].hidden)], custom[1..])
  }

  function FixedFields(otp: Otp, d: Item): seq<Field> {
    StandardFields(d) + OtpFields(otp, d) + ExtraFields(d)
  }

  function ExportFields(otp: Otp, d: Item): seq<Field> {
    WithCustom(FixedFields(otp, d), d.custom)
  }

  predicate Distinct(keys: seq<string>) {
    forall i, j :: 0 <= i < j < |keys| ==> keys[i] != keys[j]
  }

  lemma FixedDistinct(otp: Otp, d: Item)
    ensures Distinct(Keys(FixedFields(otp, d)))
  {
    hide OtpFields;
    var f := FixedFields(otp, d);
    OtpKeys(otp, d);
    FixedApart(StandardFields(d), OtpFields(otp, d), ExtraFields(d));
  }

  lemma OtpKeys(otp: Otp, d: Item)
    ensures |OtpFields(otp, d)| <= 1 && forall k :: 0 <= k < |OtpFields(otp, d)| ==> OtpFields(otp, d)[k].key == "otp"
  {
  }

  lemma FixedApart(a: seq<Field>, b: seq<Field>, c: seq<Field>)
    requires Distinct(Keys(a)) && Distinct(Keys(b)) && Distinct(Keys(c))
    requires forall i, j :: 0 <= i < |a| && 0 <= j < |b| ==> a[i].key != b[j].key
    requires forall i, j :: 0 <= i < |a| && 0 <= j < |c| ==> a[i].key != c[j].key
    requires forall i, j :: 0 <= i < |b| && 0 <= j < |c| ==> b[i].key != c[j].key
    ensures Distinct(Keys(a + b + c))
  {
  }

  lemma {:induction false} CustomDistinct(fields: seq<Field>, custom: seq<CustomField>)
    requires Distinct(Keys(fields))
    ensures Distinct(Keys(WithCustom(fields, custom)))
    decreases |custom|
  {
    hide KeyFor;
    if custom != [] {
      if Blank(custom[0]) {
        CustomDistinct(fields, custom[1..]);
      } else {
        var key := KeyFor(LabelOf(custom[0]), KeySet(fields));
        assert key !in KeySet(fields);
        CustomDistinct(fields + [Field(key, custom[0].value, custom[0].hidden)], custom[1..]);
      }
    }
  }

  /** No exported entry has two fields of the same key, whatever the labels of the item. */
  lemma KeysDistinct(otp: Otp, d: Item)
    ensures Distinct(Keys(ExportFields(otp, d)))
  {
    hide FixedFields, WithCustom, Distinct;
    FixedDistinct(otp, d);
    CustomDistinct(FixedFields(otp, d), d.custom);
  }

  /** The body of the map in itemsToKdbxEntries. */
  method FieldsForItem(otp: Otp, d: Item) returns (fields: seq<Field>)
    ensures fields == ExportFields(otp, d)
  {
    hide KeyFor, ExtraFields;
    fields := StandardFields(d);
    var link := otp.link(d);
    if link != "" {
      fields := fields + [Field("otp", link, true)];
    }
    var used := KeySet(fields);
    var extra := ExtraFields(d);
    ghost var before := fields;
    for k := 0 to |extra|
      invariant fields == before + extra[..k] && used == KeySet(fields)
    {
      Extended(fields, extra[k]);
      fields := fields + [extra[k]];
      used := used + {extra[k].key};
    }
    assert extra[..|extra|] == extra;
    for k := 0 to |d.custom|
      invariant used == KeySet(fields)
      invariant WithCustom(fields, d.custom[k..]) == ExportFields(otp, d)
    {
      var cf := d.custom[k];
      assert d.custom[k..][1..] == d.custom[k + 1..];
      if cf.name == "" && cf.value == "" {
        continue;
      }
      var key := ChooseKey(LabelOf(cf), used);
      var field := Field(key, cf.value, cf.hidden);
      Extended(fields, field);
      used := used + {key};
      fields := fields + [field];
    }
  }

  lemma Extended(fields: seq<Field>, f: Field)
    ensures KeySet(fields + [f]) == KeySet(fields) + {f.key}
  {
    var a, b := Keys(fields), Keys(fields + [f]);
    assert b == a + [f.key];
  }

  // ---- Entries to items ----

  /** new Map(fields by key): the last field of each key. */
  function ByKey(fields: seq<Field>): map<string, Field> {
    if fields == [] then map[] else ByKey(fields[..|fields| - 1])[fields[|fields| - 1].key := fields[|fields| - 1]]
  }

  function Val(byKey: map<string, Field>, key: string): string {
    if key in byKey then byKey[key].value else ""
  }

  datatype Kind = Login | CardKind | IdentityKind

  function KindOf(byKey: map<string, Field>): Kind {
    if Val(byKey, "UserName") != "" || Val(byKey, "Password") != "" then Login
    else if "Card Number" in byKey || "Card Holder" in byKey then CardKind
    else if "Full Name" in byKey then IdentityKind
    else Login
  }

  function CardOf(byKey: map<string, Field>): Card {
    Card(Val(byKey, "Card Holder"), Val(byKey, "Card Number"), Val(byKey, "Card Brand"), Val(byKey, "Card Expiry"),
      Val(byKey, "Card CVV"), Val(byKey, "Card PIN"))
  }

  function IdentityOf(byKey: map<string, Field>): Identity {
    Identity(Val(byKey, "Full Name"), Val(byKey, "Email"), Val(byKey, "Phone"), Val(byKey, "Address"), Val(byKey, "Company"))
  }

  const NO_CARD := Card("", "", "", "", "", "")
  const NO_IDENTITY := Identity("", "", "", "", "")

  function OtpKey(byKey: map<string, Field>): Option<string> {
    if "otp" in byKey then Some("otp") else if "TOTP Seed" in byKey then Some("TOTP Seed") else None
  }

  /** The keys that do not become custom fields. */
  function Consumed(byKey: map<string, Field>): set<string> {
    STANDARD + (match KindOf(byKey) case Login => {} case CardKind => CARD_KEYS case IdentityKind => IDENTITY_KEYS)
    + (if OtpKey(byKey).Some? then {OtpKey(byKey).value} else {}) + {"TOTP Settings"}
  }

  function CustomOf(fields: seq<Field>, consumed: set<string>): seq<CustomField> {
    if fields == [] then []
    else
      (if fields[0].key in consumed || fields[0].value == "" then [] else [CustomField(fields[0].key, fields[0].value, fields[0].hidden)])
      + CustomOf(fields[1..], consumed)
  }

  /** The groups of the path that are not tags already, each once. */
  function WithGroups(tags: seq<string>, path: seq<string>): seq<string>
    decreases |path|
  {
    if path == [] then tags
    else WithGroups(if path[0] != "" && path[0] !in tags then tags + [path[0]] else tags, path[1..])
  }

  /** One entry as an item; nothing for an entry without a title, a user name, a password and a URL. */
  function ItemOf(otp: Otp, fields: seq<Field>, tags: seq<string>, path: seq<string>): Option<Item> {
    var byKey := ByKey(fields);
    var title, username, password, url := Trim(Val(byKey, "Title")), Val(byKey, "UserName"), Val(byKey, "Password"), Val(byKey, "URL");
    if title == "" && username == "" && password == "" && url == "" then None
    else
      var kind := KindOf(byKey);
      Some(Item(
        match kind case Login => "login" case CardKind => "card" case IdentityKind => "identity",
        if title != "" then title else if username != "" then username else if url != "" then url else "KeePass",
        username, password, url, Val(byKey, "Notes"),
        match OtpKey(byKey) case None => "" case Some(k) => otp.secretFrom(byKey[k].value),
        WithGroups(tags, path),
        CustomOf(fields, Consumed(byKey)),
        if kind == CardKind then CardOf(byKey) else NO_CARD,
        if kind == IdentityKind then IdentityOf(byKey) else NO_IDENTITY))
  }

  /** No entry but an empty one is lost, and every item has a title: of the first of four sources that has a text. */
  lemma TitleFallback(otp: Otp, fields: seq<Field>, tags: seq<string>, path: seq<string>)
    ensures var byKey := ByKey(fields);
            var sources := [Trim(Val(byKey, "Title")), Val(byKey, "UserName"), Val(byKey, "URL"), "KeePass"];
            var r := ItemOf(otp, fields, tags, path);
            && (r == None <==> sources[0] == sources[1] == sources[2] == Val(byKey, "Password") == "")
            && (r.Some? ==> exists k :: 0 <= k < 4 && r.value.title == sources[k] != "" && forall j :: 0 <= j < k ==> sources[j] == "")
  {
    hide ByKey, Val, Trim, KindOf, CardOf, IdentityOf, OtpKey, Consumed, CustomOf, WithGroups;
    var byKey := ByKey(fields);
    var sources := [Trim(Val(byKey, "Title")), Val(byKey, "UserName"), Val(byKey, "URL"), "KeePass"];
    var r := ItemOf(otp, fields, tags, path);
    if r.Some? {
      var k := if sources[0] != "" then 0 else if sources[1] != "" then 1 else if sources[2] != "" then 2 else 3;
      assert r.value.title == sources[k];
    }
  }

  /** The secret is that of the field otp, or of TOTP Seed if there is no such field. */
  lemma SecretSource(otp: Otp, fields: seq<Field>, tags: seq<string>, path: seq<string>)
    ensures var byKey, r := ByKey(fields), ItemOf(otp, fields, tags, path);
            r.Some? ==>
              && ("otp" in byKey ==> r.value.totp == otp.secretFrom(byKey["otp"].value))
              && ("otp" !in byKey && "TOTP Seed" in byKey ==> r.value.totp == otp.secretFrom(byKey["TOTP Seed"].value))
              && ("otp" !in byKey && "TOTP Seed" !in byKey ==> r.value.totp == "")
  {
    hide ByKey, Val, Trim, KindOf, CardOf, IdentityOf, Consumed, CustomOf, WithGroups;
  }

  /** The field with the secret and the plugin's settings do not become custom fields. */
  lemma SecretNotCustom(otp: Otp, fields: seq<Field>, tags: seq<string>, path: seq<string>)
    ensures var byKey, r := ByKey(fields), ItemOf(otp, fields, tags, path);
            r.Some? ==> forall f :: f in r.value.custom ==>
              f.value != "" && f.name != "otp" && f.name != "TOTP Settings" && (f.name == "TOTP Seed" ==> "otp" in byKey)
  {
    hide ByKey, Val, Trim, KindOf, CardOf, IdentityOf, CustomOf, WithGroups;
    var byKey := ByKey(fields);
    CustomNotConsumed(fields, Consumed(byKey));
    CustomFromFields(fields, Consumed(byKey));
    forall k | 0 <= k < |fields| ensures fields[k].key in byKey {
      HasKey(fields, k);
    }
  }

  lemma {:induction false} CustomNotConsumed(fields: seq<Field>, consumed: set<string>)
    ensures forall f :: f in CustomOf(fields, consumed) ==> f.name !in consumed && f.value != ""
  {
    if fields != [] {
      CustomNotConsumed(fields[1..], consumed);
    }
  }

  lemma {:induction false} CustomFromFields(fields: seq<Field>, consumed: set<string>)
    ensures forall f :: f in CustomOf(fields, consumed) ==> exists k :: 0 <= k < |fields| && fields[k].key == f.name
  {
    if fields != [] {
      CustomFromFields(fields[1..], consumed);
      forall f | f in CustomOf(fields, consumed) ensures exists k :: 0 <= k < |fields| && fields[k].key == f.name {
        if f in CustomOf(fields[1..], consumed) {
          var k :| 0 <= k < |fields| - 1 && fields[1..][k].key == f.name;
          assert fields[k + 1].key == f.name;
        } else {
          assert fields[0].key == f.name;
        }
      }
    }
  }

  lemma {:induction false} HasKey(fields: seq<Field>, k: nat)
    requires k < |fields|
    ensures fields[k].key in ByKey(fields)
  {
    if k < |fields| - 1 {
      HasKey(fields[..|fields| - 1], k);
    }
  }

  /** The tags of an entry stay in front; behind them every named group of the path stands once, and nothing else. */
  lemma {:induction false} GroupsAsTags(tags: seq<string>, path: seq<string>)
    ensures var all := WithGroups(tags, path);
            && tags <= all
            && (forall t :: t in all <==> t in tags || (t in path && t != ""))
            && (forall a, b :: |tags| <= b < |all| && 0 <= a < b ==> all[a] != all[b])
    decreases |path|
  {
    if path != [] {
      var next := if path[0] != "" && path[0] !in tags then tags + [path[0]] else tags;
      GroupsAsTags(next, path[1..]);
      assert path == [path[0]] + path[1..];
      var all := WithGroups(tags, path);
      if next != tags {
        assert all[|tags|] == path[0];
      }
    }
  }

  /** The body of the loop in kdbxEntriesToItems. */
  method EntryToItem(otp: Otp, fields: seq<Field>, tags: seq<string>, path: seq<string>) returns (r: Option<Item>)
    ensures r == ItemOf(otp, fields, tags, path)
  {
    hide ByKey, Val, Trim, KindOf, CardOf, IdentityOf, OtpKey, Consumed;
    var byKey := ByKey(fields);
    var item := Item("login", Trim(Val(byKey, "Title")), Val(byKey, "UserName"), Val(byKey, "Password"), Val(byKey, "URL"),
      Val(byKey, "Notes"), "", [], [], NO_CARD, NO_IDENTITY);
    if item.title == "" && item.username == "" && item.password == "" && item.url == "" {
      return None;
    }
    if item.title == "" {
      item := item.(title := if item.username != "" then item.username else if item.url != "" then item.url else "KeePass");
    }
    var kind := KindOf(byKey);
    if kind == CardKind {
      item := item.(kind := "card", card := CardOf(byKey));
    } else if kind == IdentityKind {
      item := item.(kind := "identity", identity := IdentityOf(byKey));
    }
    var otpKey := OtpKey(byKey);
    OtpKeyThere(byKey);
    if otpKey.Some? {
      item := item.(totp := otp.secretFrom(byKey[otpKey.value].value));
    }
    var custom := CustomLoop(fields, Consumed(byKey));
    var all := tags;
    for k := 0 to |path|
      invariant WithGroups(all, path[k..]) == WithGroups(tags, path)
    {
      assert path[k..][1..] == path[k + 1..];
      if path[k] != "" && path[k] !in all {
        all := all + [path[k]];
      }
    }
    r := Some(item.(custom := custom, tags := all));
  }

  lemma OtpKeyThere(byKey: map<string, Field>)
    ensures OtpKey(byKey).Some? ==> OtpKey(byKey).value in byKey
  {
  }

  method CustomLoop(fields: seq<Field>, consumed: set<string>) returns (custom: seq<CustomField>)
    ensures custom == CustomOf(fields, consumed)
  {
    hide CustomOf;
    custom := [];
    assert fields[0..] == fields;
    for k := 0 to |fields|
      invariant custom + CustomOf(fields[k..], consumed) == CustomOf(fields, consumed)
    {
      var f := fields[k];
      CustomOfNext(fields, consumed, k);
      if f.key in consumed || f.value == "" {
        continue;
      }
      Grouped(custom, [CustomField(f.key, f.value, f.hidden)], CustomOf(fields[k + 1..], consumed));
      custom := custom + [CustomField(f.key, f.value, f.hidden)];
    }
    CustomOfNone(fields, consumed);
  }

  lemma {:induction false} CustomOfNext(fields: seq<Field>, consumed: set<string>, k: nat)
    requires k < |fields|
    ensures var f := fields[k];
            CustomOf(fields[k..], consumed) ==
            if f.key in consumed || f.value == "" then CustomOf(fields[k + 1..], consumed)
            else [CustomField(f.key, f.value, f.hidden)] + CustomOf(fields[k + 1..], consumed)
  {
    assert fields[k..][1..] == fields[k + 1..];
  }

  lemma {:induction false} CustomOfNone(fields: seq<Field>, consumed: set<string>)
    ensures CustomOf(fields[|fields|..], consumed) == []
  {
  }

  // ---- Round trip ----

  /** The fields that reach a file: those with a value. */
  function Kept(fields: seq<Field>): seq<Field> {
    if fields == [] then [] else (if fields[0].value != "" then [fields[0]] else []) + Kept(fields[1..])
  }

  lemma KeptFirst(fields: seq<Field>)
    requires fields != []
    ensures Kept(fields) == (if fields[0].value != "" then [fields[0]] else []) + Kept(fields[1..])
  {
  }

  lemma {:induction false} KeptConcat(a: seq<Field>, b: seq<Field>)
    ensures Kept(a + b) == Kept(a) + Kept(b)
  {
    if a == [] {
      assert a + b == b;
    } else {
      hide Kept;
      KeptConcat(a[1..], b);
      KeptFirst(a);
      KeptFirst(a + b);
      TailOfSum(a, b);
      Grouped(if a[0].value != "" then [a[0]] else [], Kept(a[1..]), Kept(b));
    }
  }

  /** A key is in the map exactly if a field has it; a key that only one field has leads to that field. */
  lemma {:induction false} ByKeyHas(fields: seq<Field>, key: string)
    ensures key in ByKey(fields) <==> exists k :: 0 <= k < |fields| && fields[k].key == key
    ensures key in ByKey(fields) ==> exists k :: 0 <= k < |fields| && fields[k] == ByKey(fields)[key] && fields[k].key == key
  {
    if fields != [] {
      var n := |fields| - 1;
      ByKeyHas(fields[..n], key);
      assert forall k :: 0 <= k < n ==> fields[..n][k] == fields[k];
      assert fields[n].key == key || (key in ByKey(fields) <==> key in ByKey(fields[..n]));
    }
  }

  lemma {:induction false} KeptHas(fields: seq<Field>, f: Field)
    ensures f in Kept(fields) <==> f in fields && f.value != ""
  {
    if fields != [] {
      KeptHas(fields[1..], f);
      assert fields == [fields[0]] + fields[1..];
    }
  }

  /** With distinct keys, a field that is there decides the value of its key. */
  lemma {:induction false} ValOfKept(fields: seq<Field>, f: Field)
    requires Distinct(Keys(fields)) && f in fields
    ensures Val(ByKey(Kept(fields)), f.key) == f.value
    ensures f.key in ByKey(Kept(fields)) <==> f.value != ""
    ensures f.value != "" ==> ByKey(Kept(fields))[f.key] == f
  {
    hide Kept, ByKey;
    var kept := Kept(fields);
    ByKeyHas(kept, f.key);
    KeptHas(fields, f);
    if f.key in ByKey(kept) {
      var k :| 0 <= k < |kept| && kept[k] == ByKey(kept)[f.key] && kept[k].key == f.key;
      KeptHas(fields, kept[k]);
      OnlyOne(fields, f, kept[k]);
    }
  }

  lemma OnlyOne(fields: seq<Field>, f: Field, g: Field)
    requires Distinct(Keys(fields)) && f in fields && g in fields && f.key == g.key
    ensures f == g
  {
    var i :| 0 <= i < |fields| && fields[i] == f;
    var j :| 0 <= j < |fields| && fields[j] == g;
    assert Keys(fields)[i] == Keys(fields)[j];
  }

  lemma {:induction false} NoSuchKey(fields: seq<Field>, key: string)
    requires forall k :: 0 <= k < |fields| ==> fields[k].key != key
    ensures key !in ByKey(Kept(fields))
  {
    hide Kept, ByKey;
    ByKeyHas(Kept(fields), key);
    if key in ByKey(Kept(fields)) {
      var k :| 0 <= k < |Kept(fields)| && Kept(fields)[k].key == key;
      KeptHas(fields, Kept(fields)[k]);
    }
  }

  /** The labels that cannot stay: their fields are taken for something else when the entry is read. */
  function Claimed(otp: Otp, d: Item): set<string> {
    STANDARD + {"otp", "TOTP Settings"}
    + (if otp.link(d) == "" then {"TOTP Seed"} else {})
    + (if d.kind == "card" then CARD_KEYS
       else if d.kind == "identity" then IDENTITY_KEYS + {"Card Number", "Card Holder"}
       else if d.username == "" && d.password == "" then {"Card Number", "Card Holder", "Full Name"}
       else {})
  }

  /** Custom fields with values, under labels that are not empty, not claimed and different from each other. */
  predicate NiceCustom(custom: seq<CustomField>, claimed: set<string>) {
    && (forall k :: 0 <= k < |custom| ==> custom[k].name != "" && custom[k].name !in claimed && custom[k].value != "")
    && forall j, k :: 0 <= j < k < |custom| ==> custom[j].name != custom[k].name
  }

  /** A title that is found again: one without outer white space, or one that is all white space and is put in from the user name or URL. */
  predicate NiceTitle(d: Item) {
    d.title != "" && if Trim(d.title) != "" then Trimmed(d.title) else d.title == if d.username != "" then d.username else d.url
  }

  /** The items that come back: what is stored where belongs to the type, and a card or identity has no credentials. */
  predicate Nice(otp: Otp, d: Item) {
    && NiceTitle(d) && NiceCustom(d.custom, Claimed(otp, d))
    && d.totp == (if otp.link(d) == "" then "" else otp.secretFrom(otp.link(d)))
    && (d.kind == "login" || d.kind == "card" || d.kind == "identity")
    && (d.kind == "login" ==> d.card == NO_CARD && d.identity == NO_IDENTITY)
    && (d.kind == "card" ==> d.identity == NO_IDENTITY && (d.card.number != "" || d.card.holder != ""))
    && (d.kind == "identity" ==> d.card == NO_CARD && d.identity.fullname != "")
    && (d.kind != "login" ==> d.username == "" && d.password == "")
  }

  function CustomFields(custom: seq<CustomField>): (r: seq<Field>)
    ensures |r| == |custom| && forall k :: 0 <= k < |r| ==> r[k] == Field(custom[k].name, custom[k].value, custom[k].hidden)
  {
    seq(|custom|, k requires 0 <= k < |custom| => Field(custom[k].name, custom[k].value, custom[k].hidden))
  }

  /** Nice labels are never renamed. */
  lemma {:induction false} NiceCustomAsIs(fields: seq<Field>, custom: seq<CustomField>, claimed: set<string>)
    requires NiceCustom(custom, claimed) && Apart(fields, custom)
    ensures WithCustom(fields, custom) == fields + CustomFields(custom)
    decreases |custom|
  {
    hide NiceCustom, Apart, WithCustom;
    if custom == [] {
      NoCustom(fields);
      assert fields + [] == fields;
    } else {
      hide CustomFields;
      NiceHead(custom, claimed);
      ApartNext(fields, custom, claimed);
      NiceCustomAsIs(fields + [Field(custom[0].name, custom[0].value, custom[0].hidden)], custom[1..], claimed);
      CustomAsIsNext(fields, custom);
    }
  }

  lemma {:induction false} CustomAsIsNext(fields: seq<Field>, custom: seq<CustomField>)
    requires custom != [] && custom[0].name != "" && forall i :: 0 <= i < |fields| ==> fields[i].key != custom[0].name
    requires var f := Field(custom[0].name, custom[0].value, custom[0].hidden);
             WithCustom(fields + [f], custom[1..]) == fields + [f] + CustomFields(custom[1..])
    ensures WithCustom(fields, custom) == fields + CustomFields(custom)
  {
    hide WithCustom, CustomFields;
    var f, more := Field(custom[0].name, custom[0].value, custom[0].hidden), CustomFields(custom[1..]);
    FirstCustom(fields, custom);
    CustomFieldsNext(custom);
    assert fields + [f] + more == fields + ([f] + more);
  }

  lemma CustomFieldsNext(custom: seq<CustomField>)
    requires custom != []
    ensures CustomFields(custom) == [Field(custom[0].name, custom[0].value, custom[0].hidden)] + CustomFields(custom[1..])
  {
  }

  /** No field has the label of a custom field. */
  predicate Apart(fields: seq<Field>, custom: seq<CustomField>) {
    forall i, k :: 0 <= i < |fields| && 0 <= k < |custom| ==> fields[i].key != custom[k].name
  }

  lemma ApartNext(fields: seq<Field>, custom: seq<CustomField>, claimed: set<string>)
    requires NiceCustom(custom, claimed) && custom != [] && Apart(fields, custom)
    ensures forall i :: 0 <= i < |fields| ==> fields[i].key != custom[0].name
    ensures Apart(fields + [Field(custom[0].name, custom[0].value, custom[0].hidden)], custom[1..])
  {
  }

  lemma {:induction false} NoCustom(fields: seq<Field>)
    ensures WithCustom(fields, []) == fields
  {
  }

  lemma {:induction false} FirstCustom(fields: seq<Field>, custom: seq<CustomField>)
    requires custom != [] && custom[0].name != "" && forall i :: 0 <= i < |fields| ==> fields[i].key != custom[0].name
    ensures WithCustom(fields, custom) == WithCustom(fields + [Field(custom[0].name, custom[0].value, custom[0].hidden)], custom[1..])
  {
    hide KeyFor, KeySet;
    UnusedLabel(fields, custom[0].name);
  }

  lemma NiceHead(custom: seq<CustomField>, claimed: set<string>)
    requires NiceCustom(custom, claimed) && custom != []
    ensures custom[0].name != "" && NiceCustom(custom[1..], claimed) && forall k :: 0 < k < |custom| ==> custom[0].name != custom[k].name
  {
  }

  lemma UnusedLabel(fields: seq<Field>, base: string)
    requires forall i :: 0 <= i < |fields| ==> fields[i].key != base
    ensures KeyFor(base, KeySet(fields)) == base
  {
  }

  lemma FixedClaimed(otp: Otp, d: Item)
    ensures forall k :: 0 <= k < |FixedFields(otp, d)| ==> FixedFields(otp, d)[k].key in Claimed(otp, d)
  {
    OtpKeys(otp, d);
    StandardKeys(d);
    ExtraKeys(d);
    hide OtpFields, StandardFields, ExtraFields;
    AllClaimed(StandardFields(d), OtpFields(otp, d), ExtraFields(d), Claimed(otp, d));
  }

  lemma ExtraKeys(d: Item)
    ensures d.kind != "card" && d.kind != "identity" ==> ExtraFields(d) == []
    ensures forall k :: 0 <= k < |ExtraFields(d)| ==> ExtraFields(d)[k].key in if d.kind == "card" then CARD_KEYS else IDENTITY_KEYS
  {
  }

  lemma AllClaimed(a: seq<Field>, b: seq<Field>, c: seq<Field>, claimed: set<string>)
    requires (forall k :: 0 <= k < |a| ==> a[k].key in claimed) && (forall k :: 0 <= k < |b| ==> b[k].key in claimed)
    requires forall k :: 0 <= k < |c| ==> c[k].key in claimed
    ensures forall k :: 0 <= k < |a + b + c| ==> (a + b + c)[k].key in claimed
  {
  }

  lemma ExportOfNice(otp: Otp, d: Item)
    requires NiceCustom(d.custom, Claimed(otp, d))
    ensures ExportFields(otp, d) == FixedFields(otp, d) + CustomFields(d.custom)
  {
    hide FixedFields, NiceCustom, Claimed;
    FixedClaimed(otp, d);
    ClaimedApart(FixedFields(otp, d), d.custom, Claimed(otp, d));
    NiceCustomAsIs(FixedFields(otp, d), d.custom, Claimed(otp, d));
  }

  lemma ClaimedApart(fields: seq<Field>, custom: seq<CustomField>, claimed: set<string>)
    requires NiceCustom(custom, claimed) && forall k :: 0 <= k < |fields| ==> fields[k].key in claimed
    ensures Apart(fields, custom)
  {
  }

  lemma {:induction false} CustomOfConcat(a: seq<Field>, b: seq<Field>, consumed: set<string>)
    ensures CustomOf(a + b, consumed) == CustomOf(a, consumed) + CustomOf(b, consumed)
  {
    if a == [] {
      assert a + b == b;
    } else {
      CustomOfConcat(a[1..], b, consumed);
      TailOfSum(a, b);
      Grouped(if a[0].key in consumed || a[0].value == "" then [] else [CustomField(a[0].key, a[0].value, a[0].hidden)],
        CustomOf(a[1..], consumed), CustomOf(b, consumed));
    }
  }

  /** Empty fields make no custom field. */
  lemma {:induction false} CustomOfKept(fields: seq<Field>, consumed: set<string>)
    ensures CustomOf(Kept(fields), consumed) == CustomOf(fields, consumed)
  {
    if fields != [] {
      CustomOfKept(fields[1..], consumed);
      if fields[0].value != "" {
        assert Kept(fields)[1..] == Kept(fields[1..]);
      } else {
        assert [] + Kept(fields[1..]) == Kept(fields[1..]);
        assert [] + CustomOf(fields[1..], consumed) == CustomOf(fields[1..], consumed);
      }
    }
  }

  lemma {:induction false} NoneLeft(fields: seq<Field>, consumed: set<string>)
    requires forall k :: 0 <= k < |fields| ==> fields[k].key in consumed || fields[k].value == ""
    ensures CustomOf(fields, consumed) == []
  {
    if fields != [] {
      NoneLeft(fields[1..], consumed);
    }
  }

  lemma {:induction false} AllLeft(custom: seq<CustomField>, consumed: set<string>, claimed: set<string>)
    requires NiceCustom(custom, claimed) && consumed <= claimed
    ensures CustomOf(CustomFields(custom), consumed) == custom
  {
    hide CustomFields;
    if custom != [] {
      NiceTail(custom, claimed);
      AllLeft(custom[1..], consumed, claimed);
      assert CustomFields(custom)[1..] == CustomFields(custom[1..]);
      assert custom == [custom[0]] + custom[1..];
    } else {
      assert CustomFields(custom) == [];
    }
  }

  lemma NiceTail(custom: seq<CustomField>, claimed: set<string>)
    requires NiceCustom(custom, claimed) && custom != []
    ensures NiceCustom(custom[1..], claimed) && custom[0].name !in claimed && custom[0].value != ""
  {
  }

  /** Where the fields of an item are. */
  lemma ExportMembers(otp: Otp, d: Item)
    ensures var f := ExportFields(otp, d);
            && Field("Title", d.title, false) in f && Field("UserName", d.username, false) in f && Field("Password", d.password, true) in f
            && Field("URL", d.url, false) in f && Field("Notes", d.notes, false) in f
            && (otp.link(d) != "" ==> Field("otp", otp.link(d), true) in f)
            && forall k :: 0 <= k < |ExtraFields(d)| ==> ExtraFields(d)[k] in f
  {
    hide ExtraFields, WithCustom;
    var a, b, c := StandardFields(d), OtpFields(otp, d), ExtraFields(d);
    var f := ExportFields(otp, d);
    assert Field("Title", d.title, false) == a[0] && Field("UserName", d.username, false) == a[1] && Field("Password", d.password, true) == a[2];
    assert Field("URL", d.url, false) == a[3] && Field("Notes", d.notes, false) == a[4];
    assert otp.link(d) != "" ==> b[0] == Field("otp", otp.link(d), true);
    assert f == a + b + c + f[|a + b + c|..];
    hide StandardFields, OtpFields, ExportFields;
    AllIn(a, b, c, f[|a + b + c|..]);
  }

  lemma AllIn(a: seq<Field>, b: seq<Field>, c: seq<Field>, e: seq<Field>)
    ensures forall k :: 0 <= k < |a| ==> a[k] in a + b + c + e
    ensures forall k :: 0 <= k < |b| ==> b[k] in a + b + c + e
    ensures forall k :: 0 <= k < |c| ==> c[k] in a + b + c + e
  {
    var f := a + b + c + e;
    assert forall k :: 0 <= k < |a| ==> f[k] == a[k];
    assert forall k :: 0 <= k < |b| ==> f[|a| + k] == b[k];
    assert forall k :: 0 <= k < |c| ==> f[|a| + |b| + k] == c[k];
  }

  lemma NoneIn(a: seq<Field>, b: seq<Field>, c: seq<Field>, e: seq<Field>, key: string)
    requires (forall k :: 0 <= k < |a| ==> a[k].key != key) && (forall k :: 0 <= k < |b| ==> b[k].key != key)
    requires (forall k :: 0 <= k < |c| ==> c[k].key != key) && (forall k :: 0 <= k < |e| ==> e[k].key != key)
    ensures forall k :: 0 <= k < |a + b + c + e| ==> (a + b + c + e)[k].key != key
  {
  }

  lemma StandardKeys(d: Item)
    ensures forall k :: 0 <= k < |StandardFields(d)| ==> StandardFields(d)[k].key in STANDARD
  {
  }

  lemma CustomKeys(custom: seq<CustomField>, claimed: set<string>)
    requires NiceCustom(custom, claimed)
    ensures forall k :: 0 <= k < |CustomFields(custom)| ==> CustomFields(custom)[k].key !in claimed
  {
  }

  /** No other claimed key is there. */
  lemma ExportAbsent(otp: Otp, d: Item, key: string)
    requires NiceCustom(d.custom, Claimed(otp, d)) && key in Claimed(otp, d)
    requires key !in STANDARD && (key == "otp" ==> otp.link(d) == "")
    requires forall k :: 0 <= k < |ExtraFields(d)| ==> ExtraFields(d)[k].key != key
    ensures key !in ByKey(Kept(ExportFields(otp, d)))
  {
    hide ExtraFields, ByKey, Kept, StandardFields, OtpFields, CustomFields, ExportFields, NiceCustom, Claimed;
    ExportOfNice(otp, d);
    OtpKeys(otp, d);
    StandardKeys(d);
    CustomKeys(d.custom, Claimed(otp, d));
    NoLinkNoField(otp, d);
    NoneIn(StandardFields(d), OtpFields(otp, d), ExtraFields(d), CustomFields(d.custom), key);
    NoSuchKey(ExportFields(otp, d), key);
  }

  lemma NoLinkNoField(otp: Otp, d: Item)
    ensures otp.link(d) == "" ==> OtpFields(otp, d) == []
  {
  }

  /** What the reader's map says of the standard fields. */
  lemma StandardVals(otp: Otp, d: Item)
    ensures var m := ByKey(Kept(ExportFields(otp, d)));
            && Val(m, "Title") == d.title && Val(m, "UserName") == d.username && Val(m, "Password") == d.password
            && Val(m, "URL") == d.url && Val(m, "Notes") == d.notes
  {
    hide ExportFields, ByKey, Kept, Val, Distinct;
    var f := ExportFields(otp, d);
    KeysDistinct(otp, d);
    ExportMembers(otp, d);
    ValOfKept(f, Field("Title", d.title, false));
    ValOfKept(f, Field("UserName", d.username, false));
    ValOfKept(f, Field("Password", d.password, true));
    ValOfKept(f, Field("URL", d.url, false));
    ValOfKept(f, Field("Notes", d.notes, false));
  }

  lemma OtpVal(otp: Otp, d: Item)
    requires NiceCustom(d.custom, Claimed(otp, d))
    ensures var m := ByKey(Kept(ExportFields(otp, d)));
            if otp.link(d) == "" then OtpKey(m) == None else OtpKey(m) == Some("otp") && m["otp"].value == otp.link(d)
  {
    hide ExportFields, ByKey, Kept, Distinct;
    var f := ExportFields(otp, d);
    KeysDistinct(otp, d);
    ExportMembers(otp, d);
    ExtraNotOtp(d);
    if otp.link(d) == "" {
      ExportAbsent(otp, d, "otp");
      ExportAbsent(otp, d, "TOTP Seed");
    } else {
      ValOfKept(f, Field("otp", otp.link(d), true));
    }
  }

  lemma ExtraNotOtp(d: Item)
    ensures forall k :: 0 <= k < |ExtraFields(d)| ==> ExtraFields(d)[k].key != "otp" && ExtraFields(d)[k].key != "TOTP Seed"
  {
  }

  lemma CardVals(otp: Otp, d: Item)
    requires d.kind == "card"
    ensures var m := ByKey(Kept(ExportFields(otp, d)));
            CardOf(m) == d.card && ("Card Number" in m <==> d.card.number != "") && ("Card Holder" in m <==> d.card.holder != "")
  {
    hide ExportFields, ByKey, Kept, Val, Distinct;
    var f, e := ExportFields(otp, d), ExtraFields(d);
    KeysDistinct(otp, d);
    ExportMembers(otp, d);
    ValOfKept(f, e[0]);
    ValOfKept(f, e[1]);
    ValOfKept(f, e[2]);
    ValOfKept(f, e[3]);
    ValOfKept(f, e[4]);
    ValOfKept(f, e[5]);
  }

  lemma IdentityVals(otp: Otp, d: Item)
    requires d.kind == "identity"
    ensures var m := ByKey(Kept(ExportFields(otp, d)));
            IdentityOf(m) == d.identity && ("Full Name" in m <==> d.identity.fullname != "")
  {
    hide ExportFields, ByKey, Kept, Val, Distinct;
    var f, e := ExportFields(otp, d), ExtraFields(d);
    KeysDistinct(otp, d);
    ExportMembers(otp, d);
    ValOfKept(f, e[0]);
    ValOfKept(f, e[1]);
    ValOfKept(f, e[2]);
    ValOfKept(f, e[3]);
    ValOfKept(f, e[4]);
  }

  function KindNamed(kind: Kind): string {
    match kind case Login => "login" case CardKind => "card" case IdentityKind => "identity"
  }

  /** The reader finds the type the item had. */
  lemma KindBack(otp: Otp, d: Item)
    requires Nice(otp, d)
    ensures KindNamed(KindOf(ByKey(Kept(ExportFields(otp, d))))) == d.kind
  {
    hide ExportFields, ByKey, Kept, NiceCustom;
    StandardVals(otp, d);
    if d.kind == "login" {
      if d.username == "" && d.password == "" {
        NotACard(otp, d);
        NotAnIdentity(otp, d);
      }
    } else if d.kind == "card" {
      CardVals(otp, d);
    } else {
      IdentityVals(otp, d);
      NotACard(otp, d);
    }
  }

  lemma NotACard(otp: Otp, d: Item)
    requires NiceCustom(d.custom, Claimed(otp, d)) && d.kind != "card" && d.username == "" && d.password == ""
    ensures var m := ByKey(Kept(ExportFields(otp, d)));
            "Card Number" !in m && "Card Holder" !in m
  {
    hide ExportFields, ByKey, Kept, NiceCustom;
    ExportAbsent(otp, d, "Card Number");
    ExportAbsent(otp, d, "Card Holder");
  }

  lemma NotAnIdentity(otp: Otp, d: Item)
    requires NiceCustom(d.custom, Claimed(otp, d)) && d.kind != "card" && d.kind != "identity" && d.username == "" && d.password == ""
    ensures "Full Name" !in ByKey(Kept(ExportFields(otp, d)))
  {
    hide ExportFields, ByKey, Kept, NiceCustom;
    ExportAbsent(otp, d, "Full Name");
  }

  /** Only the custom fields are left over. */
  lemma CustomBack(otp: Otp, d: Item)
    requires Nice(otp, d)
    ensures var f := Kept(ExportFields(otp, d));
            CustomOf(f, Consumed(ByKey(f))) == d.custom
  {
    hide ExportFields, ByKey, Kept, NiceCustom, KindOf, OtpKey, CustomOf;
    var f := Kept(ExportFields(otp, d));
    var consumed := Consumed(ByKey(f));
    KindBack(otp, d);
    OtpVal(otp, d);
    ExportOfNice(otp, d);
    CustomOfKept(ExportFields(otp, d), consumed);
    CustomOfConcat(FixedFields(otp, d), CustomFields(d.custom), consumed);
    FixedConsumed(otp, d, consumed);
    NoneLeft(FixedFields(otp, d), consumed);
    AllLeft(d.custom, consumed, Claimed(otp, d));
  }

  lemma FixedConsumed(otp: Otp, d: Item, consumed: set<string>)
    requires STANDARD <= consumed && (otp.link(d) != "" ==> "otp" in consumed)
    requires (d.kind == "card" ==> CARD_KEYS <= consumed) && (d.kind == "identity" ==> IDENTITY_KEYS <= consumed)
    ensures forall k :: 0 <= k < |FixedFields(otp, d)| ==> FixedFields(otp, d)[k].key in consumed
  {
    var a, b, c := StandardFields(d), OtpFields(otp, d), ExtraFields(d);
    assert forall k :: 0 <= k < |a| ==> a[k].key in STANDARD;
    assert forall k :: 0 <= k < |b| ==> b[k].key == "otp" && otp.link(d) != "";
    assert d.kind == "card" ==> forall k :: 0 <= k < |c| ==> c[k].key in CARD_KEYS;
    assert d.kind == "identity" ==> forall k :: 0 <= k < |c| ==> c[k].key in IDENTITY_KEYS;
    hide StandardFields, OtpFields, ExtraFields;
    var f := FixedFields(otp, d);
    assert f == a + b + c;
  }

  /** A nice item, exported and stripped of its empty fields, is read back as it was. */
  lemma ItemBack(otp: Otp, d: Item)
    requires Nice(otp, d)
    ensures ItemOf(otp, Kept(ExportFields(otp, d)), d.tags, []) == Some(d)
  {
    hide ExportFields, ByKey, Kept, NiceCustom, KindOf, OtpKey, CustomOf, Consumed, CardOf, IdentityOf, Val, Trim;
    StandardVals(otp, d);
    KindBack(otp, d);
    OtpVal(otp, d);
    CustomBack(otp, d);
    if Trim(d.title) != "" {
      TrimmedStays(d.title);
    }
    if d.kind == "card" {
      CardVals(otp, d);
    } else if d.kind == "identity" {
      IdentityVals(otp, d);
    }
    assert WithGroups(d.tags, []) == d.tags;
  }
}
