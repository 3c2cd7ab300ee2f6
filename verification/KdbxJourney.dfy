/**
 * A vault exported to a KDBX file and imported again: items to entries, to the file, and all the way back.
 */
module KdbxJourney {
  import opened Bits
  import opened Wrappers
  import opened VaultItem
  import opened KdbxItems
  import KC = KdbxContainer
  import W = KdbxWriter
  import R = KdbxReader
  import K = Kdbx

  /** An item with the times of its row, in milliseconds, and the identifier drawn for its entry. */
  datatype Record = Record(item: Item, created: int, modified: int, uuid: seq<byte>)

  /** itemsToKdbxEntries. */
  function EntriesFor(otp: Otp, records: seq<Record>): (r: seq<W.Entry>)
    ensures |r| == |records|
  {
    seq(|records|, k requires 0 <= k < |records| =>
      W.Entry(ExportFields(otp, records[k].item), records[k].item.tags, records[k].created, records[k].modified, records[k].uuid))
  }

  /** kdbxEntriesToItems. */
  function ItemsFrom(otp: Otp, entries: seq<R.ReadEntry>): seq<Item> {
    if entries == [] then []
    else
      var rest := ItemsFrom(otp, entries[1..]);
      match ItemOf(otp, entries[0].fields, entries[0].tags, entries[0].group)
      case None => rest
      case Some(item) => [item] + rest
  }

  function ItemsIn(records: seq<Record>): (r: seq<Item>)
    ensures |r| == |records|
  {
    seq(|records|, k requires 0 <= k < |records| => records[k].item)
  }

  /** A field that XML and the text encoding leave alone: no control characters, and no byte order mark in front of a protected value. */
  predicate StorableField(f: Field) {
    K.NoControl(f.key) && if f.hidden then !(f.value != "" && f.value[0] == '\U{FEFF}') else K.NoControl(f.value)
  }

  predicate AllStorable(fields: seq<Field>) {
    forall k :: 0 <= k < |fields| && fields[k].value != "" ==> StorableField(fields[k])
  }

  predicate Storable(otp: Otp, d: Item) {
    && AllStorable(ExportFields(otp, d))
    && forall k :: 0 <= k < |d.tags| ==> K.NiceTag(d.tags[k])
  }

  /** The fields that have a value come back exactly if every one of them is storable. */
  lemma {:induction false} FieldsStored(fields: seq<Field>)
    ensures K.FieldsBack(fields) == Kept(fields) <==> AllStorable(fields)
  {
    hide StorableField, K.FieldBack, AllStorable, Kept, K.FieldsBack;
    if fields == [] {
      NothingStored();
    } else {
      var f := fields[0];
      FieldsStored(fields[1..]);
      FieldStored(f);
      StorableFirst(fields);
      KeptFirst(fields);
      K.FieldsBackFirst(fields);
      if f.value == "" {
        assert [] + K.FieldsBack(fields[1..]) == K.FieldsBack(fields[1..]);
        assert [] + Kept(fields[1..]) == Kept(fields[1..]);
      } else {
        assert K.FieldsBack(fields)[0] == K.FieldBack(f) && K.FieldsBack(fields)[1..] == K.FieldsBack(fields[1..]);
        assert Kept(fields)[0] == f && Kept(fields)[1..] == Kept(fields[1..]);
      }
    }
  }

  lemma NothingStored()
    ensures K.FieldsBack([]) == Kept([]) && AllStorable([])
  {
  }

  lemma StorableFirst(fields: seq<Field>)
    requires fields != []
    ensures AllStorable(fields) <==> (fields[0].value != "" ==> StorableField(fields[0])) && AllStorable(fields[1..])
  {
    hide StorableField;
    assert fields == [fields[0]] + fields[1..];
  }

  lemma FieldStored(f: Field)
    ensures K.FieldBack(f) == f <==> StorableField(f)
  {
    K.FieldExact(f);
  }

  lemma OneBack(env: R.Env, otp: Otp, r: Record, now: int)
    requires Nice(otp, r.item) && Storable(otp, r.item)
    ensures var e := K.EntryBack(env.p, W.Entry(ExportFields(otp, r.item), r.item.tags, r.created, r.modified, r.uuid), now);
            ItemOf(otp, e.fields, e.tags, e.group) == Some(r.item)
  {
    hide ItemOf, ExportFields, Nice, K.TagsBack, K.FieldsBack, Kept, K.TimeBack;
    FieldsStored(ExportFields(otp, r.item));
    K.TagsIff(r.item.tags);
    ItemBack(otp, r.item);
  }

  lemma {:induction false} AllBack(env: R.Env, otp: Otp, records: seq<Record>, now: int)
    requires forall k :: 0 <= k < |records| ==> Nice(otp, records[k].item) && Storable(otp, records[k].item)
    ensures ItemsFrom(otp, K.EntriesBack(env.p, EntriesFor(otp, records), now)) == ItemsIn(records)
  {
    hide ItemOf, ExportFields, Nice, Storable, K.EntryBack;
    if records != [] {
      AllBack(env, otp, records[1..], now);
      OneBack(env, otp, records[0], now);
      var es := EntriesFor(otp, records);
      assert es[1..] == EntriesFor(otp, records[1..]);
      assert K.EntriesBack(env.p, es, now)[1..] == K.EntriesBack(env.p, es[1..], now);
      assert ItemsIn(records) == [records[0].item] + ItemsIn(records[1..]);
    }
  }

  /** Reading the exported file with its password gives every item back, in order. */
  lemma {:induction false} VaultBack(env: R.Env, otp: Otp, seeds: KC.Seeds, rounds: nat, password: string, vaultName: string, records: seq<Record>, now: int,
    uuid: seq<byte>)
    requires KC.Lawful(env.p) && KC.ValidSeeds(seeds) && rounds < KC.SAFE
    requires forall k :: 0 <= k < |records| ==> Nice(otp, records[k].item) && Storable(otp, records[k].item)
    ensures var r := R.Reading(env, K.Built(env.p, seeds, rounds, password, vaultName, EntriesFor(otp, records), now, uuid), password);
            r.Ok? && ItemsFrom(otp, r.value.entries) == ItemsIn(records)
  {
    hide R.Reading, K.Built, Nice, Storable, K.EntriesBack, ItemsFrom, EntriesFor, KC.Lawful;
    K.RoundTrip(env, seeds, rounds, password, vaultName, EntriesFor(otp, records), now, uuid);
    AllBack(env, otp, records, now);
  }
}
