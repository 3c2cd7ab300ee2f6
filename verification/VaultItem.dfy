/** A decrypted vault item as the exporters see it; an empty string stands for a missing property. A custom field's name is its label. */
module VaultItem {
  datatype CustomField = CustomField(name: string, value: string, hidden: bool)

  datatype Card = Card(holder: string, number: string, brand: string, exp: string, cvv: string, pin: string)

  datatype Identity = Identity(fullname: string, email: string, phone: string, address: string, company: string)

  datatype Item = Item(kind: string, title: string, username: string, password: string, url: string, notes: string,
    totp: string, tags: seq<string>, custom: seq<CustomField>, card: Card, identity: Identity)

  /** A field of an exported entry. */
  datatype Field = Field(key: string, value: string, hidden: bool)

  /** The fields an item has by its type, in order. */
  function ExtraFields(d: Item): seq<Field> {
    if d.kind == "card" then
      [Field("Card Holder", d.card.holder, false), Field("Card Number", d.card.number, true),
       Field("Card Brand", d.card.brand, false), Field("Card Expiry", d.card.exp, false),
       Field("Card CVV", d.card.cvv, true), Field("Card PIN", d.card.pin, true)]
    else if d.kind == "identity" then
      [Field("Full Name", d.identity.fullname, false), Field("Email", d.identity.email, false),
       Field("Phone", d.identity.phone, false), Field("Address", d.identity.address, false),
       Field("Company", d.identity.company, false)]
    else []
  }
}
