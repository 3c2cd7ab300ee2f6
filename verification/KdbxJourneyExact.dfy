/**
 * Exactly which vaults come back from an exported KDBX file: the other half of KdbxJourney.VaultBack.
 */
module KdbxJourneyExact {
  import opened Bits
  import opened Sequences
  import opened Strings
  import opened Wrappers
  import opened VaultItem
  import opened Xml
  import opened KdbxItems
  import opened KdbxItemsExact
  import opened KdbxJourney
  import KC = KdbxContainer
  import W = KdbxWriter
  import R = KdbxReader
  import K = Kdbx

  /** A link that is not empty starts with otpauth://, and so not with a byte order mark. */
  ghost predicate LawfulLinks(otp: Otp) {
    forall d :: NoMark(otp.link(d))
  }

  predicate NoMark(s: string) {
    !(s != "" && s[0] == '\U{FEFF}')
  }

  // ---- Cleaned keys ----

  lemma {:induction false} CleanConcat(s: string, t: string)
    ensures Clean(s + t) == Clean(s) + Clean(t)
  {
    if s == "" {
      assert s + t == t;
    } else {
      CleanConcat(s[1..], t);
      TailOfSum(s, t);
      Grouped(if Control(s[0]) then "" else [s[0]], Clean(s[1..]), Clean(t));
    }
  }

  lemma {:induction false} FreeLabelIs(base: string, used: set<string>, n: nat)
    ensures base + " (" <= FreeLabel(base, used, n)
    decreases Taken(base, used, n)
  {
    if Numbered(base, n) in used {
      TakenShrinks(base, used, n);
      FreeLabelIs(base, used, n + 1);
    }
  }

  /** A label that is renamed has more than control characters put behind it. */
  lemma {:induction false} CleanKey(base: string, used: set<string>)
    ensures KeyFor(base, used) == base || |Clean(KeyFor(base, used))| > |Clean(base)|
    ensures |Clean(KeyFor(base, used))| >= |Clean(base)|
  {
    hide Clean;
    if base in used {
      FreeLabelIs(base, used, 2);
      var key := KeyFor(base, used);
      var rest := key[|base| + 2..];
      assert key == base + (" (" + rest);
      CleanConcat(base, " (" + rest);
      CleanConcat(" (", rest);
      ParenthesisStays();
    }
  }

  lemma ParenthesisStays()
    ensures Clean(" (") == " ("
  {
    assert " ("[1..] == "(" && "("[1..] == "";
  }

  lemma FieldStays()
    ensures Clean("Field") != ""
  {
    assert "Field"[0] == 'F';
  }

  /** A key that is cleaned to the label it was made from is that label. */
  lemma KeyIsLabel(c: CustomField, used: set<string>)
    requires Clean(KeyFor(LabelOf(c), used)) == c.name
    ensures c.name != "" && KeyFor(LabelOf(c), used) == c.name && K.NoControl(c.name)
  {
    hide Clean, KeyFor, K.NoControl;
    CleanKey(LabelOf(c), used);
    FieldStays();
    K.CleanHasNoControl(KeyFor(LabelOf(c), used));
    K.CleanExact(c.name);
  }

  // ---- Custom fields ----

  lemma {:induction false} BackConcat(a: seq<Field>, b: seq<Field>)
    ensures K.FieldsBack(a + b) == K.FieldsBack(a) + K.FieldsBack(b)
  {
    hide K.FieldsBack, K.FieldBack;
    if a == [] {
      assert a + b == b;
      NoneBack();
    } else {
      BackConcat(a[1..], b);
      K.FieldsBackFirst(a);
      K.FieldsBackFirst(a + b);
      TailOfSum(a, b);
      Grouped(if a[0].value != "" then [K.FieldBack(a[0])] else [], K.FieldsBack(a[1..]), K.FieldsBack(b));
    }
  }

  lemma NoneBack()
    ensures K.FieldsBack([]) == []
  {
  }

  /** The custom field that comes of one exported field, if any. */
  function EmittedBack(f: Field, consumed: set<string>): seq<CustomField> {
    if f.value == "" then [] else Emitted(K.FieldBack(f), consumed)
  }

  lemma {:induction false} BackFirst(f: Field, rest: seq<Field>, consumed: set<string>)
    ensures CustomOf(K.FieldsBack([f] + rest), consumed) == EmittedBack(f, consumed) + CustomOf(K.FieldsBack(rest), consumed)
  {
    hide K.FieldsBack, K.FieldBack, CustomOf, Emitted;
    K.FieldsBackFirst([f] + rest);
    assert ([f] + rest)[1..] == rest;
    if f.value != "" {
      CustomOfFirst(K.FieldBack(f), K.FieldsBack(rest), consumed);
    } else {
      assert [] + K.FieldsBack(rest) == K.FieldsBack(rest);
    }
  }

  lemma {:induction false} NoMoreBack(fields: seq<Field>, custom: seq<CustomField>, consumed: set<string>)
    ensures |CustomOf(K.FieldsBack(Added(fields, custom)), consumed)| <= |custom|
    decreases |custom|
  {
    hide Added, CustomOf, KeyFor, KeySet, LabelOf, Blank, K.FieldsBack, K.FieldBack;
    if custom == [] {
      NothingAddedBack(fields, consumed);
    } else if Blank(custom[0]) {
      AddedSkips(fields, custom);
      NoMoreBack(fields, custom[1..], consumed);
    } else {
      var f := Field(KeyFor(LabelOf(custom[0]), KeySet(fields)), custom[0].value, custom[0].hidden);
      AddedFirst(fields, custom);
      BackFirst(f, Added(fields + [f], custom[1..]), consumed);
      NoMoreBack(fields + [f], custom[1..], consumed);
    }
  }

  lemma {:induction false} NothingAddedBack(fields: seq<Field>, consumed: set<string>)
    ensures CustomOf(K.FieldsBack(Added(fields, [])), consumed) == []
  {
    assert Added(fields, []) == [];
    NoneBack();
  }

  /** Custom fields all come back from the file only if none was renamed or consumed and each is storable. */
  lemma {:induction false} CustomForcedBack(fields: seq<Field>, custom: seq<CustomField>, consumed: set<string>)
    requires CustomOf(K.FieldsBack(Added(fields, custom)), consumed) == custom
    ensures NiceCustom(custom, KeySet(fields) + consumed) && AllStorable(CustomFields(custom))
    decreases |custom|
  {
    hide Added, CustomOf, KeyFor, KeySet, LabelOf, Blank, NiceCustom, K.FieldsBack, K.FieldBack, StorableField, AllStorable, CustomFields;
    if custom == [] {
      NiceNothing(KeySet(fields) + consumed);
      NoneStorable();
    } else if Blank(custom[0]) {
      AddedSkips(fields, custom);
      NoMoreBack(fields, custom[1..], consumed);
    } else {
      var f := Field(KeyFor(LabelOf(custom[0]), KeySet(fields)), custom[0].value, custom[0].hidden);
      var more := CustomOf(K.FieldsBack(Added(fields + [f], custom[1..])), consumed);
      AddedFirst(fields, custom);
      BackFirst(f, Added(fields + [f], custom[1..]), consumed);
      NoMoreBack(fields + [f], custom[1..], consumed);
      assert EmittedBack(f, consumed) + more == custom;
      assert |EmittedBack(f, consumed)| == 1;
      assert custom[0] == EmittedBack(f, consumed)[0] && custom[1..] == more;
      CustomForcedBack(fields + [f], custom[1..], consumed);
      OneForced(f, custom[0], KeySet(fields), consumed);
      Extended(fields, f);
      assert KeySet(fields + [f]) + consumed == KeySet(fields) + consumed + {custom[0].name};
      NicePrepended(custom, KeySet(fields) + consumed);
      StorablePrepended(custom);
    }
  }

  lemma OneForced(f: Field, c: CustomField, used: set<string>, consumed: set<string>)
    requires f == Field(KeyFor(LabelOf(c), used), c.value, c.hidden)
    requires EmittedBack(f, consumed) == [c]
    ensures f.key == c.name != "" && c.value != "" && c.name !in used && c.name !in consumed && StorableField(f)
  {
    hide Clean, KeyFor, LabelOf, StorableField;
    assert K.FieldBack(f).key == c.name && K.FieldBack(f).value == c.value;
    KeyIsLabel(c, used);
    K.CleanExact(c.name);
    FieldStored(f);
  }

  lemma NoneStorable()
    ensures AllStorable(CustomFields([]))
  {
  }

  lemma StorablePrepended(custom: seq<CustomField>)
    requires custom != [] && StorableField(Field(custom[0].name, custom[0].value, custom[0].hidden))
    requires AllStorable(CustomFields(custom[1..]))
    ensures AllStorable(CustomFields(custom))
  {
    hide StorableField, CustomFields;
    CustomFieldsNext(custom);
    assert CustomFields(custom)[1..] == CustomFields(custom[1..]);
    StorableFirst(CustomFields(custom));
  }

  // ---- The fields of the type ----

  predicate CleanKeys(fields: seq<Field>) {
    forall k :: 0 <= k < |fields| ==> K.NoControl(fields[k].key)
  }

  lemma FixedKeysClean(otp: Otp, d: Item)
    ensures CleanKeys(FixedFields(otp, d))
  {
    var a, b, c := StandardFields(d), OtpFields(otp, d), ExtraFields(d);
    assert CleanKeys(a);
    assert CleanKeys(b);
    ExtraKeysClean(d);
    hide StandardFields, OtpFields, ExtraFields, K.NoControl;
    assert FixedFields(otp, d) == a + b + c;
  }

  lemma CardKeysClean()
    ensures K.NoControl("Card Holder") && K.NoControl("Card Number") && K.NoControl("Card Brand")
    ensures K.NoControl("Card Expiry") && K.NoControl("Card CVV") && K.NoControl("Card PIN")
  {
  }

  lemma IdentityKeysClean()
    ensures K.NoControl("Full Name") && K.NoControl("Email") && K.NoControl("Phone") && K.NoControl("Address") && K.NoControl("Company")
  {
  }

  lemma ExtraKeysClean(d: Item)
    ensures CleanKeys(ExtraFields(d))
  {
    CardKeysClean();
    IdentityKeysClean();
    hide K.NoControl;
    forall k | 0 <= k < |ExtraFields(d)| ensures K.NoControl(ExtraFields(d)[k].key) {
      if d.kind == "card" {
        if k == 0 { } else if k == 1 { } else if k == 2 { } else if k == 3 { } else if k == 4 { } else { }
      } else if d.kind == "identity" {
        if k == 0 { } else if k == 1 { } else if k == 2 { } else if k == 3 { } else { }
      }
    }
  }

  /** What reaches the reader's list: the fields with a value. */
  lemma {:induction false} BackHas(fields: seq<Field>, g: Field)
    ensures g in K.FieldsBack(fields) <==> exists k :: 0 <= k < |fields| && fields[k].value != "" && K.FieldBack(fields[k]) == g
  {
    hide K.FieldsBack, K.FieldBack;
    if fields == [] {
      NoneBack();
    } else {
      BackHas(fields[1..], g);
      K.FieldsBackFirst(fields);
      assert forall k :: 0 < k < |fields| ==> fields[k] == fields[1..][k - 1];
      assert forall k :: 0 <= k < |fields| - 1 ==> fields[1..][k] == fields[k + 1];
    }
  }

  /** With distinct clean keys, the reader's map has under each key what the value of its field became. */
  lemma {:induction false} ValOfBack(fields: seq<Field>, f: Field)
    requires Distinct(Keys(fields)) && CleanKeys(fields) && f in fields
    ensures Val(ByKey(K.FieldsBack(fields)), f.key) == K.ValueBack(f)
  {
    hide K.FieldsBack, ByKey, Clean, K.NoControl;
    var back := K.FieldsBack(fields);
    var at :| 0 <= at < |fields| && fields[at] == f;
    K.CleanExact(f.key);
    ByKeyHas(back, f.key);
    BackHas(back, K.FieldBack(f));
    BackHas(fields, K.FieldBack(f));
    if f.key in ByKey(back) {
      var i :| 0 <= i < |back| && back[i] == ByKey(back)[f.key] && back[i].key == f.key;
      BackHas(fields, back[i]);
      var k :| 0 <= k < |fields| && fields[k].value != "" && K.FieldBack(fields[k]) == back[i];
      K.CleanExact(fields[k].key);
      OnlyOne(fields, f, fields[k]);
    } else {
      assert f.value == "";
      EmptyStays(f);
    }
  }

  lemma EmptyStays(f: Field)
    requires f.value == ""
    ensures K.ValueBack(f) == ""
  {
  }

  // ---- What the journey tells about the item ----

  ghost function Stored(otp: Otp, d: Item): seq<Field> {
    K.FieldsBack(ExportFields(otp, d))
  }

  ghost predicate Returns(otp: Otp, d: Item) {
    ItemOf(otp, Stored(otp, d), K.TagsBack(d.tags), []) == Some(d)
  }

  lemma ReturnedKind(otp: Otp, d: Item)
    requires Returns(otp, d)
    ensures d.kind == KindNamed(KindOf(ByKey(Stored(otp, d))))
    ensures CustomOf(Stored(otp, d), Consumed(ByKey(Stored(otp, d)))) == d.custom
    ensures K.TagsBack(d.tags) == d.tags
  {
    hide Stored, ByKey, OtpKey, CustomOf, Consumed, CardOf, IdentityOf, Val, Trim, KindOf, K.TagsBack;
  }

  lemma LinkStored(otp: Otp, d: Item)
    ensures otp.link(d) != "" ==> "otp" in ByKey(Stored(otp, d))
  {
    if otp.link(d) != "" {
      var f := Field("otp", otp.link(d), true);
      ExportMembers(otp, d);
      OtpStays();
      hide ExportFields, ByKey, K.FieldsBack, Clean;
      var k :| 0 <= k < |ExportFields(otp, d)| && ExportFields(otp, d)[k] == f;
      BackHas(ExportFields(otp, d), K.FieldBack(f));
      assert K.FieldBack(f) in Stored(otp, d);
      ByKeyHas(Stored(otp, d), "otp");
    }
  }

  lemma OtpStays()
    ensures Clean("otp") == "otp"
  {
    assert "otp"[1..] == "tp" && "tp"[1..] == "p" && "p"[1..] == "";
  }

  /** The fields of the type are consumed under their own keys. */
  lemma {:induction false} FixedBackConsumed(fields: seq<Field>, consumed: set<string>)
    requires CleanKeys(fields) && forall k :: 0 <= k < |fields| ==> fields[k].key in consumed
    ensures forall k :: 0 <= k < |K.FieldsBack(fields)| ==> K.FieldsBack(fields)[k].key in consumed
  {
    hide K.FieldsBack, Clean, K.NoControl;
    forall k | 0 <= k < |K.FieldsBack(fields)| ensures K.FieldsBack(fields)[k].key in consumed {
      BackHas(fields, K.FieldsBack(fields)[k]);
      var j :| 0 <= j < |fields| && fields[j].value != "" && K.FieldBack(fields[j]) == K.FieldsBack(fields)[k];
      K.CleanExact(fields[j].key);
    }
  }

  lemma {:induction false} LeftoversStored(otp: Otp, d: Item, consumed: set<string>)
    requires STANDARD <= consumed && (otp.link(d) != "" ==> "otp" in consumed)
    requires (d.kind == "card" ==> CARD_KEYS <= consumed) && (d.kind == "identity" ==> IDENTITY_KEYS <= consumed)
    ensures CustomOf(Stored(otp, d), consumed) == CustomOf(K.FieldsBack(Added(FixedFields(otp, d), d.custom)), consumed)
  {
    hide WithCustom, FixedFields, CustomOf, K.FieldsBack, CleanKeys;
    var fixed, added := FixedFields(otp, d), Added(FixedFields(otp, d), d.custom);
    assert ExportFields(otp, d) == fixed + added;
    hide Added;
    BackConcat(fixed, added);
    CustomOfConcat(K.FieldsBack(fixed), K.FieldsBack(added), consumed);
    FixedConsumed(otp, d, consumed);
    FixedKeysClean(otp, d);
    FixedBackConsumed(fixed, consumed);
    NoneLeft(K.FieldsBack(fixed), consumed);
    assert [] + CustomOf(K.FieldsBack(added), consumed) == CustomOf(K.FieldsBack(added), consumed);
  }

  lemma ConsumedKinds(m: map<string, Field>, link: string)
    requires link != "" ==> "otp" in m
    ensures STANDARD <= Consumed(m) && (link != "" ==> "otp" in Consumed(m))
    ensures KindOf(m) == CardKind ==> CARD_KEYS <= Consumed(m)
    ensures KindOf(m) == IdentityKind ==> IDENTITY_KEYS <= Consumed(m)
  {
    hide KindOf;
  }

  lemma CustomReturned(otp: Otp, d: Item)
    requires Returns(otp, d)
    ensures AllStorable(CustomFields(d.custom))
    ensures ExportFields(otp, d) == FixedFields(otp, d) + CustomFields(d.custom)
  {
    hide Returns, Stored, ByKey, CustomOf, Consumed, KindOf, FixedFields, NiceCustom, KeySet, CustomFields, Added, AllStorable, ExportFields, K.FieldsBack;
    var m := ByKey(Stored(otp, d));
    ReturnedKind(otp, d);
    LinkStored(otp, d);
    ConsumedKinds(m, otp.link(d));
    LeftoversStored(otp, d, Consumed(m));
    CustomForcedBack(FixedFields(otp, d), d.custom, Consumed(m));
    PlainExport(otp, d, KeySet(FixedFields(otp, d)) + Consumed(m));
  }

  lemma ExportKeysClean(otp: Otp, d: Item)
    requires Returns(otp, d)
    ensures CleanKeys(ExportFields(otp, d)) && Distinct(Keys(ExportFields(otp, d)))
  {
    CustomReturned(otp, d);
    KeysDistinct(otp, d);
    CustomReturnedValues(otp, d);
    FixedKeysClean(otp, d);
    hide FixedFields, ExportFields, Returns, Distinct, Keys, K.NoControl, Clean;
    var a, b := FixedFields(otp, d), CustomFields(d.custom);
    var all: seq<Field> := a + b;
    forall k | 0 <= k < |all| ensures K.NoControl(all[k].key) {
      if k >= |a| {
        assert all[k] == b[k - |a|];
        assert StorableField(b[k - |a|]);
      }
    }
  }

  lemma CustomReturnedValues(otp: Otp, d: Item)
    requires Returns(otp, d)
    ensures forall k :: 0 <= k < |d.custom| ==> d.custom[k].value != ""
  {
    hide Returns, Stored, ByKey, CustomOf, Consumed, KindOf, FixedFields, KeySet, CustomFields, Added, AllStorable, ExportFields, K.FieldsBack;
    var m := ByKey(Stored(otp, d));
    ReturnedKind(otp, d);
    LinkStored(otp, d);
    ConsumedKinds(m, otp.link(d));
    LeftoversStored(otp, d, Consumed(m));
    CustomForcedBack(FixedFields(otp, d), d.custom, Consumed(m));
  }

  /** A field is storable if its value comes back. */
  lemma StorableIfBack(f: Field)
    requires K.NoControl(f.key) && K.ValueBack(f) == f.value
    ensures StorableField(f)
  {
    hide Clean, K.NoControl;
    K.CleanExact(f.key);
    FieldStored(f);
  }

  /** The value under the key of an exported field. */
  lemma ReturnedVal(otp: Otp, d: Item, f: Field)
    requires Returns(otp, d) && f in ExportFields(otp, d)
    ensures Val(ByKey(Stored(otp, d)), f.key) == K.ValueBack(f) && K.NoControl(f.key)
  {
    hide Returns, ExportFields, Val, ByKey, Distinct, K.ValueBack, K.NoControl;
    ExportKeysClean(otp, d);
    ValOfBack(ExportFields(otp, d), f);
  }

  lemma TitleReturned(otp: Otp, d: Item)
    requires Returns(otp, d)
    ensures StorableField(Field("Title", d.title, false))
  {
    var t, u, l := Field("Title", d.title, false), Field("UserName", d.username, false), Field("URL", d.url, false);
    ExportMembers(otp, d);
    ReturnedVal(otp, d, t);
    ReturnedVal(otp, d, u);
    ReturnedVal(otp, d, l);
    hide ExportFields, Stored, ByKey, OtpKey, CustomOf, Consumed, CardOf, IdentityOf, Val, Trim, KindOf, K.TagsBack, Clean, K.NoControl;
    TrimIsPart(Clean(d.title));
    K.CleanHasNoControl(d.title);
    K.CleanHasNoControl(d.username);
    K.CleanHasNoControl(d.url);
    PartHasNoControl(Trim(Clean(d.title)), Clean(d.title));
    KeePassHasNoControl();
    K.CleanExact(d.title);
    StorableIfBack(t);
  }

  lemma PartHasNoControl(s: string, t: string)
    requires K.NoControl(t) && forall c :: c in s ==> c in t
    ensures K.NoControl(s)
  {
    forall i | 0 <= i < |s| ensures !Control(s[i]) {
      assert s[i] in t;
    }
  }

  lemma KeePassHasNoControl()
    ensures K.NoControl("KeePass")
  {
  }

  lemma PlainVals(otp: Otp, d: Item)
    requires Returns(otp, d)
    ensures var m := ByKey(Stored(otp, d));
            Val(m, "UserName") == d.username && Val(m, "Password") == d.password && Val(m, "URL") == d.url && Val(m, "Notes") == d.notes
  {
    hide Stored, ByKey, OtpKey, CustomOf, Consumed, CardOf, IdentityOf, Val, Trim, KindOf, K.TagsBack;
  }

  lemma PlainReturned(otp: Otp, d: Item, f: Field)
    requires Returns(otp, d) && f in ExportFields(otp, d) && Val(ByKey(Stored(otp, d)), f.key) == f.value
    ensures StorableField(f)
  {
    hide Returns, ExportFields, Stored, ByKey, Val, K.ValueBack, K.NoControl, StorableField;
    ReturnedVal(otp, d, f);
    StorableIfBack(f);
  }

  lemma StandardReturned(otp: Otp, d: Item)
    requires Returns(otp, d)
    ensures AllStorable(StandardFields(d))
  {
    hide Returns, ExportFields, Stored, ByKey, Val, StorableField;
    TitleReturned(otp, d);
    ExportMembers(otp, d);
    PlainVals(otp, d);
    PlainReturned(otp, d, Field("UserName", d.username, false));
    PlainReturned(otp, d, Field("Password", d.password, true));
    PlainReturned(otp, d, Field("URL", d.url, false));
    PlainReturned(otp, d, Field("Notes", d.notes, false));
  }

  lemma CardReturned(otp: Otp, d: Item)
    requires Returns(otp, d) && d.kind == "card"
    ensures CardOf(ByKey(Stored(otp, d))) == d.card
  {
    hide Stored, ByKey, OtpKey, CustomOf, Consumed, CardOf, IdentityOf, Val, Trim, KindOf, K.TagsBack;
  }

  lemma IdentityReturned(otp: Otp, d: Item)
    requires Returns(otp, d) && d.kind == "identity"
    ensures IdentityOf(ByKey(Stored(otp, d))) == d.identity
  {
    hide Stored, ByKey, OtpKey, CustomOf, Consumed, CardOf, IdentityOf, Val, Trim, KindOf, K.TagsBack;
  }

  /** Every field of the type has under its key the value that the item has. */
  lemma ExtraVal(otp: Otp, d: Item, k: nat)
    requires Returns(otp, d) && k < |ExtraFields(d)|
    ensures Val(ByKey(Stored(otp, d)), ExtraFields(d)[k].key) == ExtraFields(d)[k].value
  {
    hide Returns, Stored, ByKey, Val;
    if d.kind == "card" {
      CardReturned(otp, d);
      if k == 0 { } else if k == 1 { } else if k == 2 { } else if k == 3 { } else if k == 4 { } else { }
    } else if d.kind == "identity" {
      IdentityReturned(otp, d);
      if k == 0 { } else if k == 1 { } else if k == 2 { } else if k == 3 { } else { }
    }
  }

  lemma ExtraReturned(otp: Otp, d: Item)
    requires Returns(otp, d)
    ensures AllStorable(ExtraFields(d))
  {
    hide Returns, Stored, ByKey, ExportFields, ExtraFields, Val, StorableField;
    forall k | 0 <= k < |ExtraFields(d)| ensures StorableField(ExtraFields(d)[k]) {
      ExportMembers(otp, d);
      ExtraVal(otp, d, k);
      PlainReturned(otp, d, ExtraFields(d)[k]);
    }
  }

  lemma {:induction false} StorableConcat(a: seq<Field>, b: seq<Field>)
    requires AllStorable(a) && AllStorable(b)
    ensures AllStorable(a + b)
  {
    hide StorableField;
    forall k | 0 <= k < |a + b| && (a + b)[k].value != "" ensures StorableField((a + b)[k]) {
      if k < |a| {
        assert (a + b)[k] == a[k];
      } else {
        assert (a + b)[k] == b[k - |a|];
      }
    }
  }

  lemma LinkStorable(otp: Otp, d: Item)
    requires LawfulLinks(otp)
    ensures AllStorable(OtpFields(otp, d))
  {
    if otp.link(d) != "" {
      assert NoMark(otp.link(d));
      assert OtpFields(otp, d) == [Field("otp", otp.link(d), true)];
    }
  }

  lemma OnlyIfStorable(otp: Otp, d: Item)
    requires LawfulLinks(otp) && Returns(otp, d)
    ensures Storable(otp, d) && Nice(otp, d)
  {
    var a, b, c, e := StandardFields(d), OtpFields(otp, d), ExtraFields(d), CustomFields(d.custom);
    ReturnedKind(otp, d);
    K.TagsIff(d.tags);
    CustomReturned(otp, d);
    StandardReturned(otp, d);
    LinkStorable(otp, d);
    ExtraReturned(otp, d);
    hide ExportFields, StandardFields, OtpFields, ExtraFields, CustomFields, AllStorable, ItemOf, K.TagsBack, Nice, Kept, K.FieldsBack;
    StorableConcat(a, b);
    StorableConcat(a + b, c);
    StorableConcat(a + b + c, e);
    FieldsStored(ExportFields(otp, d));
    ItemBackIff(otp, d);
  }

  // ---- Items, vaults ----

  ghost predicate RecordReturns(env: R.Env, otp: Otp, r: Record, now: int) {
    var e := K.EntryBack(env.p, W.Entry(ExportFields(otp, r.item), r.item.tags, r.created, r.modified, r.uuid), now);
    ItemOf(otp, e.fields, e.tags, e.group) == Some(r.item)
  }

  /** An item comes back from the file exactly if it is nice and storable. */
  lemma RecordBackIff(env: R.Env, otp: Otp, r: Record, now: int)
    requires LawfulLinks(otp)
    ensures RecordReturns(env, otp, r, now) <==> Nice(otp, r.item) && Storable(otp, r.item)
  {
    hide ItemOf, ExportFields, Nice, Storable, K.TagsBack, K.FieldsBack, K.TimeBack, LawfulLinks;
    if Nice(otp, r.item) && Storable(otp, r.item) {
      OneBack(env, otp, r, now);
    }
    if RecordReturns(env, otp, r, now) {
      OnlyIfStorable(otp, r.item);
    }
  }

  lemma {:induction false} ItemsFromShort(otp: Otp, entries: seq<R.ReadEntry>)
    ensures |ItemsFrom(otp, entries)| <= |entries|
  {
    hide ItemOf;
    if entries != [] {
      ItemsFromShort(otp, entries[1..]);
    }
  }

  lemma {:induction false} AllBackIff(env: R.Env, otp: Otp, records: seq<Record>, now: int)
    requires LawfulLinks(otp)
    ensures ItemsFrom(otp, K.EntriesBack(env.p, EntriesFor(otp, records), now)) == ItemsIn(records)
       <==> forall k :: 0 <= k < |records| ==> Nice(otp, records[k].item) && Storable(otp, records[k].item)
  {
    hide Nice, Storable, LawfulLinks, ItemsFrom, ItemOf;
    if forall k :: 0 <= k < |records| ==> Nice(otp, records[k].item) && Storable(otp, records[k].item) {
      AllBack(env, otp, records, now);
    }
    if ItemsFrom(otp, K.EntriesBack(env.p, EntriesFor(otp, records), now)) == ItemsIn(records) {
      AllForced(env, otp, records, now);
    }
  }

  lemma {:induction false} AllForced(env: R.Env, otp: Otp, records: seq<Record>, now: int)
    requires LawfulLinks(otp)
    requires ItemsFrom(otp, K.EntriesBack(env.p, EntriesFor(otp, records), now)) == ItemsIn(records)
    ensures forall k :: 0 <= k < |records| ==> Nice(otp, records[k].item) && Storable(otp, records[k].item)
  {
    hide Nice, Storable, LawfulLinks, ItemOf, K.EntryBack, ExportFields;
    if records != [] {
      var es := EntriesFor(otp, records);
      var back := K.EntriesBack(env.p, es, now);
      assert es[1..] == EntriesFor(otp, records[1..]);
      assert back[1..] == K.EntriesBack(env.p, es[1..], now);
      assert ItemsIn(records)[1..] == ItemsIn(records[1..]);
      ItemsFromShort(otp, back[1..]);
      var rest := ItemsFrom(otp, back[1..]);
      assert ItemsFrom(otp, back)[0] == records[0].item && ItemsFrom(otp, back)[1..] == rest;
      assert RecordReturns(env, otp, records[0], now);
      AllForced(env, otp, records[1..], now);
      RecordBackIff(env, otp, records[0], now);
      assert forall k :: 0 < k < |records| ==> records[k] == records[1..][k - 1];
    }
  }

  /** Reading the exported file with its password gives every item back, in order, if and only if every item is nice and storable. */
  lemma {:induction false} VaultBackIff(env: R.Env, otp: Otp, seeds: KC.Seeds, rounds: nat, password: string, vaultName: string, records: seq<Record>, now: int,
    uuid: seq<byte>)
    requires KC.Lawful(env.p) && KC.ValidSeeds(seeds) && rounds < KC.SAFE && LawfulLinks(otp)
    ensures var r := R.Reading(env, K.Built(env.p, seeds, rounds, password, vaultName, EntriesFor(otp, records), now, uuid), password);
            r.Ok? && (ItemsFrom(otp, r.value.entries) == ItemsIn(records)
              <==> forall k :: 0 <= k < |records| ==> Nice(otp, records[k].item) && Storable(otp, records[k].item))
  {
    hide R.Reading, K.Built, Nice, Storable, K.EntriesBack, ItemsFrom, EntriesFor, KC.Lawful, LawfulLinks;
    K.RoundTrip(env, seeds, rounds, password, vaultName, EntriesFor(otp, records), now, uuid);
    AllBackIff(env, otp, records, now);
  }
}
