/**
 * Exactly which items come back from a KDBX entry: the other half of KdbxItems.ItemBack.
 */
module KdbxItemsExact {
  import opened Strings
  import opened Wrappers
  import opened VaultItem
  import opened KdbxItems

  // ---- Custom fields ----

  lemma {:induction false} FreeLabelNotEmpty(base: string, used: set<string>, n: nat)
    ensures FreeLabel(base, used, n) != ""
    decreases Taken(base, used, n)
  {
    if Numbered(base, n) in used {
      TakenShrinks(base, used, n);
      FreeLabelNotEmpty(base, used, n + 1);
    }
  }

  lemma {:induction false} KeyNotEmpty(c: CustomField, used: set<string>)
    ensures KeyFor(LabelOf(c), used) != ""
  {
    FreeLabelNotEmpty(LabelOf(c), used, 2);
  }

  /** The fields that the custom ones add. */
  function Added(fields: seq<Field>, custom: seq<CustomField>): seq<Field> {
    WithCustom(fields, custom)[|fields|..]
  }

  lemma {:induction false} AddedSkips(fields: seq<Field>, custom: seq<CustomField>)
    requires custom != [] && Blank(custom[0])
    ensures Added(fields, custom) == Added(fields, custom[1..])
  {
  }

  lemma {:induction false} AddedFirst(fields: seq<Field>, custom: seq<CustomField>)
    requires custom != [] && !Blank(custom[0])
    ensures var f := Field(KeyFor(LabelOf(custom[0]), KeySet(fields)), custom[0].value, custom[0].hidden);
            Added(fields, custom) == [f] + Added(fields + [f], custom[1..])
  {
    hide KeyFor, KeySet, LabelOf;
    var f := Field(KeyFor(LabelOf(custom[0]), KeySet(fields)), custom[0].value, custom[0].hidden);
    var all := WithCustom(fields + [f], custom[1..]);
    assert fields + [f] <= all;
    assert all[|fields|] == f;
  }

  function Emitted(f: Field, consumed: set<string>): seq<CustomField> {
    if f.key in consumed || f.value == "" then [] else [CustomField(f.key, f.value, f.hidden)]
  }

  lemma {:induction false} CustomOfFirst(f: Field, rest: seq<Field>, consumed: set<string>)
    ensures CustomOf([f] + rest, consumed) == Emitted(f, consumed) + CustomOf(rest, consumed)
  {
    assert ([f] + rest)[1..] == rest;
  }

  lemma {:induction false} NoMoreThanThere(fields: seq<Field>, custom: seq<CustomField>, consumed: set<string>)
    ensures |CustomOf(Added(fields, custom), consumed)| <= |custom|
    decreases |custom|
  {
    hide Added, CustomOf, KeyFor, KeySet, LabelOf, Blank;
    if custom == [] {
      NothingAdded(fields, consumed);
    } else if Blank(custom[0]) {
      AddedSkips(fields, custom);
      NoMoreThanThere(fields, custom[1..], consumed);
    } else {
      var f := Field(KeyFor(LabelOf(custom[0]), KeySet(fields)), custom[0].value, custom[0].hidden);
      AddedFirst(fields, custom);
      CustomOfFirst(f, Added(fields + [f], custom[1..]), consumed);
      NoMoreThanThere(fields + [f], custom[1..], consumed);
    }
  }

  lemma {:induction false} NothingAdded(fields: seq<Field>, consumed: set<string>)
    ensures CustomOf(Added(fields, []), consumed) == []
  {
  }

  /** Custom fields all come back under their labels only if no label had to be changed and none was consumed. */
  lemma {:induction false} CustomForced(fields: seq<Field>, custom: seq<CustomField>, consumed: set<string>)
    requires CustomOf(Added(fields, custom), consumed) == custom
    ensures NiceCustom(custom, KeySet(fields) + consumed)
    decreases |custom|
  {
    hide Added, CustomOf, KeyFor, KeySet, LabelOf, Blank, NiceCustom;
    if custom == [] {
      NiceNothing(KeySet(fields) + consumed);
    } else if Blank(custom[0]) {
      AddedSkips(fields, custom);
      NoMoreThanThere(fields, custom[1..], consumed);
    } else {
      var f := Field(KeyFor(LabelOf(custom[0]), KeySet(fields)), custom[0].value, custom[0].hidden);
      var more := CustomOf(Added(fields + [f], custom[1..]), consumed);
      AddedFirst(fields, custom);
      CustomOfFirst(f, Added(fields + [f], custom[1..]), consumed);
      NoMoreThanThere(fields + [f], custom[1..], consumed);
      assert Emitted(f, consumed) + more == custom;
      assert |Emitted(f, consumed)| == 1;
      assert custom == [CustomField(f.key, f.value, f.hidden)] + more;
      assert custom[1..] == more;
      CustomForced(fields + [f], custom[1..], consumed);
      Extended(fields, f);
      KeyNotEmpty(custom[0], KeySet(fields));
      assert KeySet(fields + [f]) + consumed == KeySet(fields) + consumed + {custom[0].name};
      NicePrepended(custom, KeySet(fields) + consumed);
    }
  }

  lemma NiceNothing(claimed: set<string>)
    ensures NiceCustom([], claimed)
  {
  }

  lemma NicePrepended(custom: seq<CustomField>, claimed: set<string>)
    requires custom != [] && custom[0].name != "" && custom[0].value != "" && custom[0].name !in claimed
    requires NiceCustom(custom[1..], claimed + {custom[0].name})
    ensures NiceCustom(custom, claimed)
  {
    assert forall k :: 0 < k < |custom| ==> custom[k] == custom[1..][k - 1];
  }

  // ---- What a round trip tells about the item ----

  ghost predicate ComesBack(otp: Otp, d: Item) {
    ItemOf(otp, Kept(ExportFields(otp, d)), d.tags, []) == Some(d)
  }

  ghost function ReadMap(otp: Otp, d: Item): map<string, Field> {
    ByKey(Kept(ExportFields(otp, d)))
  }

  lemma TypeForced(otp: Otp, d: Item)
    requires ComesBack(otp, d)
    ensures d.kind == KindNamed(KindOf(ReadMap(otp, d)))
    ensures d.kind == "login" ==> d.card == NO_CARD && d.identity == NO_IDENTITY
    ensures d.kind == "card" ==> d.identity == NO_IDENTITY && (d.card.number != "" || d.card.holder != "")
    ensures d.kind == "identity" ==> d.card == NO_CARD && d.identity.fullname != ""
    ensures d.kind != "login" ==> d.username == "" && d.password == ""
  {
    hide ExportFields, ByKey, Kept, OtpKey, CustomOf, Consumed, CardOf, IdentityOf, Val, Trim;
    StandardVals(otp, d);
    if d.kind == "card" {
      CardVals(otp, d);
    } else if d.kind == "identity" {
      IdentityVals(otp, d);
    }
  }

  lemma TitleForced(otp: Otp, d: Item)
    requires ComesBack(otp, d)
    ensures NiceTitle(d)
  {
    hide ExportFields, ByKey, Kept, OtpKey, CustomOf, Consumed, CardOf, IdentityOf, Val, Trim, KindOf;
    StandardVals(otp, d);
    TrimExact(d.title);
    if Trim(d.title) == "" && d.username == "" && d.url == "" {
      KeePassIsNoSpace();
    }
  }

  lemma KeePassIsNoSpace()
    ensures Trim("KeePass") != ""
  {
    TrimmedStays("KeePass");
  }

  /** The fields of the type and the standard ones are consumed, so all that is left comes from the custom ones. */
  lemma {:induction false} LeftoversAreAdded(otp: Otp, d: Item, consumed: set<string>)
    requires STANDARD <= consumed && (otp.link(d) != "" ==> "otp" in consumed)
    requires (d.kind == "card" ==> CARD_KEYS <= consumed) && (d.kind == "identity" ==> IDENTITY_KEYS <= consumed)
    ensures CustomOf(Kept(ExportFields(otp, d)), consumed) == CustomOf(Added(FixedFields(otp, d), d.custom), consumed)
  {
    hide WithCustom, FixedFields, CustomOf, Kept;
    var fixed, added := FixedFields(otp, d), Added(FixedFields(otp, d), d.custom);
    assert ExportFields(otp, d) == fixed + added;
    hide Added;
    CustomOfKept(ExportFields(otp, d), consumed);
    CustomOfConcat(fixed, added, consumed);
    FixedConsumed(otp, d, consumed);
    NoneLeft(fixed, consumed);
    assert [] + CustomOf(added, consumed) == CustomOf(added, consumed);
  }

  lemma LinkThere(otp: Otp, d: Item)
    ensures otp.link(d) != "" ==> OtpKey(ReadMap(otp, d)) == Some("otp") && ReadMap(otp, d)["otp"].value == otp.link(d)
  {
    hide ExportFields, ByKey, Kept, Distinct;
    if otp.link(d) != "" {
      KeysDistinct(otp, d);
      ExportMembers(otp, d);
      ValOfKept(ExportFields(otp, d), Field("otp", otp.link(d), true));
    }
  }

  lemma CustomPlain(otp: Otp, d: Item)
    requires ComesBack(otp, d)
    ensures NiceCustom(d.custom, KeySet(FixedFields(otp, d)) + Consumed(ReadMap(otp, d)))
    ensures ExportFields(otp, d) == FixedFields(otp, d) + CustomFields(d.custom)
  {
    var consumed := Consumed(ReadMap(otp, d));
    TypeForced(otp, d);
    LinkThere(otp, d);
    hide ExportFields, ByKey, Kept, CustomOf, CardOf, IdentityOf, Val, Trim, KindOf, FixedFields, NiceCustom, KeySet, OtpKey, CustomFields;
    LeftoversAreAdded(otp, d, consumed);
    CustomForced(FixedFields(otp, d), d.custom, consumed);
    PlainExport(otp, d, KeySet(FixedFields(otp, d)) + consumed);
  }

  lemma {:induction false} PlainExport(otp: Otp, d: Item, claimed: set<string>)
    requires NiceCustom(d.custom, claimed) && KeySet(FixedFields(otp, d)) <= claimed
    ensures ExportFields(otp, d) == FixedFields(otp, d) + CustomFields(d.custom)
  {
    hide FixedFields, NiceCustom, CustomFields, WithCustom;
    var f := FixedFields(otp, d);
    forall k | 0 <= k < |f| ensures f[k].key in claimed {
      assert Keys(f)[k] in KeySet(f);
    }
    ClaimedApart(f, d.custom, claimed);
    NiceCustomAsIs(f, d.custom, claimed);
  }

  /** The label of a custom field that is exported as it is leads to a field when the entry is read. */
  lemma LabelThere(otp: Otp, d: Item, k: nat)
    requires k < |d.custom| && d.custom[k].value != ""
    requires ExportFields(otp, d) == FixedFields(otp, d) + CustomFields(d.custom)
    ensures d.custom[k].name in ReadMap(otp, d)
  {
    hide FixedFields, ExportFields, Kept, ByKey, Distinct;
    var f := CustomFields(d.custom)[k];
    assert ExportFields(otp, d)[|FixedFields(otp, d)| + k] == f;
    KeysDistinct(otp, d);
    ValOfKept(ExportFields(otp, d), f);
  }

  /** Without a link no field is taken for one: its label would have been consumed. */
  lemma NoLinkRead(otp: Otp, d: Item)
    requires ComesBack(otp, d) && otp.link(d) == ""
    ensures "otp" !in ReadMap(otp, d)
  {
    CustomPlain(otp, d);
    FixedNotOtp(otp, d);
    hide FixedFields, ExportFields, Kept, ByKey, Distinct;
    var fixed, more := FixedFields(otp, d), CustomFields(d.custom);
    assert "otp" in ReadMap(otp, d) ==> "otp" in Consumed(ReadMap(otp, d));
    if "otp" in ReadMap(otp, d) {
      var all: seq<Field> := fixed + more;
      forall k | 0 <= k < |all| ensures all[k].key != "otp" {
        if k >= |fixed| {
          assert all[k] == more[k - |fixed|];
        }
      }
      NoSuchKey(ExportFields(otp, d), "otp");
    }
  }

  lemma FixedNotOtp(otp: Otp, d: Item)
    requires otp.link(d) == ""
    ensures forall k :: 0 <= k < |FixedFields(otp, d)| ==> FixedFields(otp, d)[k].key != "otp"
  {
    NoLinkNoField(otp, d);
    StandardKeys(d);
    ExtraNotOtp(d);
    hide StandardFields, OtpFields, ExtraFields;
    NoneIn(StandardFields(d), OtpFields(otp, d), ExtraFields(d), [], "otp");
    assert FixedFields(otp, d) == StandardFields(d) + OtpFields(otp, d) + ExtraFields(d) + [];
  }

  /** What the reader does not consume and the type does not use is not claimed by the one or the other. */
  lemma ConsumedOtp(m: map<string, Field>, name: string)
    requires name in m && name !in Consumed(m)
    ensures name !in STANDARD && name != "otp" && name != "TOTP Settings"
    ensures "otp" !in m ==> name != "TOTP Seed"
  {
    hide KindOf;
  }

  lemma ConsumedType(m: map<string, Field>, name: string)
    requires name in m && name !in Consumed(m)
    ensures KindOf(m) == CardKind ==> name !in CARD_KEYS
    ensures KindOf(m) == IdentityKind ==> name !in IDENTITY_KEYS && name != "Card Number" && name != "Card Holder"
    ensures KindOf(m) == Login && Val(m, "UserName") == "" && Val(m, "Password") == "" ==>
              name != "Card Number" && name != "Card Holder" && name != "Full Name"
  {
    hide OtpKey, Val;
  }

  lemma NotClaimed(otp: Otp, d: Item, k: nat)
    requires ComesBack(otp, d) && k < |d.custom|
    ensures d.custom[k].name != "" && d.custom[k].value != "" && d.custom[k].name !in Claimed(otp, d)
  {
    var m, name := ReadMap(otp, d), d.custom[k].name;
    CustomPlain(otp, d);
    assert name != "" && d.custom[k].value != "" && name !in Consumed(m) by {
      hide ExportFields, FixedFields, Consumed, ComesBack;
    }
    hide ComesBack, Consumed, ExportFields, FixedFields, NiceCustom, KeySet;
    if otp.link(d) == "" {
      NoLinkRead(otp, d);
    }
    TypeForced(otp, d);
    StandardVals(otp, d);
    LabelThere(otp, d, k);
    ConsumedOtp(m, name);
    ConsumedType(m, name);
    hide KindOf, ReadMap, Val, ByKey, Kept;
  }

  lemma CustomNice(otp: Otp, d: Item)
    requires ComesBack(otp, d)
    ensures NiceCustom(d.custom, Claimed(otp, d))
  {
    hide Claimed, ComesBack, Consumed, KeySet;
    CustomPlain(otp, d);
    forall k | 0 <= k < |d.custom| ensures d.custom[k].name != "" && d.custom[k].value != "" && d.custom[k].name !in Claimed(otp, d) {
      NotClaimed(otp, d, k);
    }
  }

  lemma OtpForced(otp: Otp, d: Item)
    requires ComesBack(otp, d)
    ensures d.totp == if otp.link(d) == "" then "" else otp.secretFrom(otp.link(d))
  {
    CustomNice(otp, d);
    OtpVal(otp, d);
    hide ExportFields, ByKey, Kept, OtpKey, CustomOf, Consumed, CardOf, IdentityOf, Val, Trim, KindOf, NiceCustom;
  }

  /** The items that come back are exactly the nice ones. */
  lemma ItemBackIff(otp: Otp, d: Item)
    ensures ItemOf(otp, Kept(ExportFields(otp, d)), d.tags, []) == Some(d) <==> Nice(otp, d)
  {
    if Nice(otp, d) {
      ItemBack(otp, d);
    }
    if ComesBack(otp, d) {
      TypeForced(otp, d);
      TitleForced(otp, d);
      CustomNice(otp, d);
      OtpForced(otp, d);
    }
  }
}
