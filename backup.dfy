/**
 * The backup: every person row becomes one JSON record with its child
 * collections attached, and the records are written one after the other as
 * the elements of a JSON array, with a progress message per row. The
 * contacts store is given as its rows, and each child query as a function
 * of the person id that may return no cursor at all.
 */
module Backup {
  import opened Wrappers
  import opened Json
  import ContactColumns
  import opened Events

  type Bytes = seq<bv8>

  /** A people row; `None` is a null column. The id is read with `getInt`, so it is a Java int. `photoVersion` is only read by the older revision. */
  datatype PersonRow = PersonRow(
    id: Int32Value, name: Option<string>, customRingTone: Option<string>, displayName: Option<string>,
    lastTimeContacted: Option<string>, notes: Option<string>, phoneticName: Option<string>,
    sendToVoicemail: Option<string>, starred: Option<string>, timesContacted: Option<string>,
    photoVersion: Option<string>)

  datatype MethodRow = MethodRow(
    isPrimary: int, customLabel: Option<string>, methodType: Option<string>,
    auxData: Option<string>, data: Option<string>, kind: Option<string>)

  datatype PhoneRow = PhoneRow(
    isPrimary: int, customLabel: Option<string>, number: Option<string>,
    numberKey: Option<string>, phoneType: Option<string>)

  datatype OrgRow = OrgRow(
    isPrimary: int, customLabel: Option<string>, title: Option<string>,
    company: Option<string>, orgType: Option<string>)

  /** The result of a query: `None` when the query returned no cursor. */
  type Cursor<T> = Option<seq<T>>

  /** The rows the corrected helpers iterate over: none for a missing cursor. */
  function Rows<T>(c: Cursor<T>): (rows: seq<T>)
    ensures c.None? ==> rows == []
    ensures c.Some? ==> rows == c.value
  {
    if c.Some? then c.value else []
  }

  /** The store as the backup sees it: people in id order and the child queries by person id. */
  datatype Contacts = Contacts(
    people: seq<PersonRow>,
    methods: int -> Cursor<MethodRow>,
    photos: int -> Cursor<Option<Bytes>>,
    phones: int -> Cursor<PhoneRow>,
    organizations: int -> Cursor<OrgRow>)

  // ---------------------------------------------------------------------
  // Child entries.

  /** The entry key holds the column's text, and is absent when the column is null. */
  predicate Holds(fields: Fields, key: string, column: Option<string>)
  {
    (key in fields <==> column.Some?) && (column.Some? ==> fields[key] == JStr(column.value))
  }

  function MethodFields(row: MethodRow): Fields
  {
    var f0 := Updated(map[], ContactColumns.MethodIsPrimary, Some(JBool(row.isPrimary != 0)));
    var f1 := Updated(f0, ContactColumns.MethodLabel, Str(row.customLabel));
    var f2 := Updated(f1, ContactColumns.MethodType, Str(row.methodType));
    var f3 := Updated(f2, ContactColumns.MethodAuxData, Str(row.auxData));
    var f4 := Updated(f3, ContactColumns.MethodData, Str(row.data));
    Updated(f4, ContactColumns.MethodKind, Str(row.kind))
  }

  /** The puts of one phone row, applied to the given object. */
  function PhonePuts(f: Fields, row: PhoneRow): Fields
  {
    var f0 := Updated(f, ContactColumns.PhoneIsPrimary, Some(JBool(row.isPrimary != 0)));
    var f1 := Updated(f0, ContactColumns.PhoneLabel, Str(row.customLabel));
    var f2 := Updated(f1, ContactColumns.PhoneNumber, Str(row.number));
    var f3 := Updated(f2, ContactColumns.PhoneNumberKey, Str(row.numberKey));
    Updated(f3, ContactColumns.PhoneType, Str(row.phoneType))
  }

  function PhoneFields(row: PhoneRow): Fields
  {
    PhonePuts(map[], row)
  }

  function OrgFields(row: OrgRow): Fields
  {
    var f0 := Updated(map[], ContactColumns.OrgIsPrimary, Some(JBool(row.isPrimary != 0)));
    var f1 := Updated(f0, ContactColumns.OrgLabel, Str(row.customLabel));
    var f2 := Updated(f1, ContactColumns.OrgTitle, Str(row.title));
    var f3 := Updated(f2, ContactColumns.OrgCompany, Str(row.company));
    Updated(f3, ContactColumns.OrgType, Str(row.orgType))
  }

  function MethodEntry(row: MethodRow): Json { JObj(MethodFields(row)) }
  function PhoneEntry(row: PhoneRow): Json { JObj(PhoneFields(row)) }
  function OrgEntry(row: OrgRow): Json { JObj(OrgFields(row)) }

  /** A contact-method entry has only contact-method keys; is_primary is the flag compared with 0. */
  lemma MethodEntryShape(row: MethodRow)
    ensures forall k :: k in MethodFields(row) ==> k in ContactColumns.MethodKeys()
    ensures MethodFields(row)[ContactColumns.MethodIsPrimary] == JBool(row.isPrimary != 0)
    ensures Holds(MethodFields(row), ContactColumns.MethodLabel, row.customLabel)
    ensures Holds(MethodFields(row), ContactColumns.MethodType, row.methodType)
    ensures Holds(MethodFields(row), ContactColumns.MethodAuxData, row.auxData)
    ensures Holds(MethodFields(row), ContactColumns.MethodData, row.data)
    ensures Holds(MethodFields(row), ContactColumns.MethodKind, row.kind)
  {
    ContactColumns.MethodKeysDiffer();
  }

  /** A phone entry has only phone keys; is_primary is the flag compared with 0. */
  lemma PhoneEntryShape(row: PhoneRow)
    ensures forall k :: k in PhoneFields(row) ==> k in ContactColumns.PhoneKeys()
    ensures PhoneFields(row)[ContactColumns.PhoneIsPrimary] == JBool(row.isPrimary != 0)
    ensures Holds(PhoneFields(row), ContactColumns.PhoneLabel, row.customLabel)
    ensures Holds(PhoneFields(row), ContactColumns.PhoneNumber, row.number)
    ensures Holds(PhoneFields(row), ContactColumns.PhoneNumberKey, row.numberKey)
    ensures Holds(PhoneFields(row), ContactColumns.PhoneType, row.phoneType)
  {
    ContactColumns.PhoneKeysDiffer();
  }

  /** An organization entry has only organization keys; is_primary is the flag compared with 0. */
  lemma OrgEntryShape(row: OrgRow)
    ensures forall k :: k in OrgFields(row) ==> k in ContactColumns.OrgKeys()
    ensures OrgFields(row)[ContactColumns.OrgIsPrimary] == JBool(row.isPrimary != 0)
    ensures Holds(OrgFields(row), ContactColumns.OrgLabel, row.customLabel)
    ensures Holds(OrgFields(row), ContactColumns.OrgTitle, row.title)
    ensures Holds(OrgFields(row), ContactColumns.OrgCompany, row.company)
    ensures Holds(OrgFields(row), ContactColumns.OrgType, row.orgType)
  {
    ContactColumns.OrgKeysDiffer();
  }

  /** The array built from a cursor's rows, one entry appended per row. */
  function Entries<T>(rows: seq<T>, entry: T -> Json): seq<Json>
    decreases |rows|
  {
    if rows == [] then [] else Entries(rows[..|rows| - 1], entry) + [entry(rows[|rows| - 1])]
  }

  /** One entry per row, in cursor order. */
  lemma {:induction false} EntriesInOrder<T>(rows: seq<T>, entry: T -> Json)
    ensures |Entries(rows, entry)| == |rows|
    ensures forall i :: 0 <= i < |rows| ==> Entries(rows, entry)[i] == entry(rows[i])
    decreases |rows|
  {
    if rows != [] {
      EntriesInOrder(rows[..|rows| - 1], entry);
    }
  }

  /** The photo array: the encoded blobs, null blobs skipped. */
  function Encoded(blobs: seq<Option<Bytes>>, encode: Bytes -> string): seq<Json>
    decreases |blobs|
  {
    if blobs == [] then []
    else
      var last := blobs[|blobs| - 1];
      Encoded(blobs[..|blobs| - 1], encode) + (if last.Some? then [JStr(encode(last.value))] else [])
  }

  function NonNullCount(blobs: seq<Option<Bytes>>): nat
    decreases |blobs|
  {
    if blobs == [] then 0
    else NonNullCount(blobs[1..]) + (if blobs[0].Some? then 1 else 0)
  }

  /** The first non-null blob, scanning from the front. */
  function FirstBlob(blobs: seq<Option<Bytes>>): Option<Bytes>
    decreases |blobs|
  {
    if blobs == [] then None else if blobs[0].Some? then blobs[0] else FirstBlob(blobs[1..])
  }

  lemma {:induction false} EncodedCons(b: Option<Bytes>, blobs: seq<Option<Bytes>>, encode: Bytes -> string)
    ensures Encoded([b] + blobs, encode) == (if b.Some? then [JStr(encode(b.value))] else []) + Encoded(blobs, encode)
    decreases |blobs|
  {
    if blobs == [] {
      assert ([b] + blobs)[..0] == [];
      assert [b] + blobs == [b];
    } else {
      var init := blobs[..|blobs| - 1];
      EncodedCons(b, init, encode);
      assert ([b] + blobs)[..|[b] + blobs| - 1] == [b] + init;
    }
  }

  /**
   * The photo array has one string per non-null blob, every element the
   * encoding of a blob, and element 0 is the encoding of the first non-null blob.
   */
  lemma {:induction false} EncodedPhotos(blobs: seq<Option<Bytes>>, encode: Bytes -> string)
    ensures |Encoded(blobs, encode)| == NonNullCount(blobs)
    ensures forall i :: 0 <= i < |Encoded(blobs, encode)| ==> Encoded(blobs, encode)[i].JStr?
    ensures Encoded(blobs, encode) != [] <==> FirstBlob(blobs).Some?
    ensures FirstBlob(blobs).Some? ==> Encoded(blobs, encode)[0] == JStr(encode(FirstBlob(blobs).value))
    decreases |blobs|
  {
    EncodedLength(blobs, encode);
    EncodedStrings(blobs, encode);
    EncodedFirst(blobs, encode);
  }

  lemma {:induction false} EncodedLength(blobs: seq<Option<Bytes>>, encode: Bytes -> string)
    ensures |Encoded(blobs, encode)| == NonNullCount(blobs)
    decreases |blobs|
  {
    if blobs != [] {
      EncodedLength(blobs[1..], encode);
      EncodedCons(blobs[0], blobs[1..], encode);
      assert [blobs[0]] + blobs[1..] == blobs;
    }
  }

  lemma {:induction false} EncodedStrings(blobs: seq<Option<Bytes>>, encode: Bytes -> string)
    ensures forall i :: 0 <= i < |Encoded(blobs, encode)| ==> Encoded(blobs, encode)[i].JStr?
    decreases |blobs|
  {
    if blobs != [] {
      var init := blobs[..|blobs| - 1];
      EncodedStrings(init, encode);
    }
  }

  lemma {:induction false} EncodedFirst(blobs: seq<Option<Bytes>>, encode: Bytes -> string)
    ensures Encoded(blobs, encode) != [] <==> FirstBlob(blobs).Some?
    ensures FirstBlob(blobs).Some? ==> Encoded(blobs, encode)[0] == JStr(encode(FirstBlob(blobs).value))
    decreases |blobs|
  {
    if blobs != [] {
      var rest := blobs[1..];
      EncodedFirst(rest, encode);
      EncodedCons(blobs[0], rest, encode);
      assert [blobs[0]] + rest == blobs;
      var head: seq<Json> := if blobs[0].Some? then [JStr(encode(blobs[0].value))] else [];
      assert Encoded(blobs, encode) == head + Encoded(rest, encode);
    }
  }

  /** The fields after the puts of all rows on one shared object, as the older phone helper does them. */
  function SharedFields(rows: seq<PhoneRow>): Fields
    decreases |rows|
  {
    if rows == [] then map[] else PhonePuts(SharedFields(rows[..|rows| - 1]), rows[|rows| - 1])
  }

  /** The older phone array: one reference per row to the shared object, serialized in its final state. */
  function SharedEntries(rows: seq<PhoneRow>): seq<Json>
  {
    seq(|rows|, _ => JObj(SharedFields(rows)))
  }

  /** Whatever the object held, the puts of one phone row leave that row's values under the five phone keys. */
  lemma PhonePutsShape(f: Fields, row: PhoneRow)
    ensures var g := PhonePuts(f, row);
      && g[ContactColumns.PhoneIsPrimary] == JBool(row.isPrimary != 0)
      && Holds(g, ContactColumns.PhoneLabel, row.customLabel)
      && Holds(g, ContactColumns.PhoneNumber, row.number)
      && Holds(g, ContactColumns.PhoneNumberKey, row.numberKey)
      && Holds(g, ContactColumns.PhoneType, row.phoneType)
  {
    ContactColumns.PhoneKeysDiffer();
  }

  /**
   * Every entry of the older array is the shared object, which after the
   * loop holds the last row's values under all five phone keys.
   */
  lemma SharedEntriesShowLastRow(rows: seq<PhoneRow>)
    requires rows != []
    ensures |SharedEntries(rows)| == |rows|
    ensures forall i :: 0 <= i < |rows| ==> SharedEntries(rows)[i] == JObj(SharedFields(rows))
    ensures var g, last := SharedFields(rows), rows[|rows| - 1];
      && g[ContactColumns.PhoneIsPrimary] == JBool(last.isPrimary != 0)
      && Holds(g, ContactColumns.PhoneLabel, last.customLabel)
      && Holds(g, ContactColumns.PhoneNumber, last.number)
      && Holds(g, ContactColumns.PhoneNumberKey, last.numberKey)
      && Holds(g, ContactColumns.PhoneType, last.phoneType)
  {
    PhonePutsShape(SharedFields(rows[..|rows| - 1]), rows[|rows| - 1]);
  }

  /** Two phone rows with different numbers: the older array shows the last number for the first row too. */
  lemma SharedEntriesLoseRows(rows: seq<PhoneRow>)
    requires |rows| >= 2 && rows[0].number != rows[|rows| - 1].number
    ensures SharedEntries(rows) != Entries(rows, PhoneEntry)
  {
    SharedEntriesShowLastRow(rows);
    EntriesInOrder(rows, PhoneEntry);
    PhoneEntryShape(rows[0]);
  }

  // ---------------------------------------------------------------------
  // The append helpers: each reads the record's id, queries, and attaches one array.

  /** The person id the helpers query by; the record must carry it, as their documentation requires. */
  function RecordId(contact: Fields): int
    requires GetInt(contact, ContactColumns.Id).Ok?
  {
    GetInt(contact, ContactColumns.Id).value
  }

  lemma EntriesSnoc<T>(rows: seq<T>, i: nat, entry: T -> Json)
    requires i < |rows|
    ensures Entries(rows[..i + 1], entry) == Entries(rows[..i], entry) + [entry(rows[i])]
  {
    assert rows[..i + 1][..i] == rows[..i];
  }

  /** A fresh object with the puts of one contact-method row. */
  method NewMethodEntry(row: MethodRow) returns (entry: JsonObject)
    ensures fresh(entry) && entry.fields == MethodFields(row)
  {
    entry := new JsonObject();
    entry.Put(ContactColumns.MethodIsPrimary, Some(JBool(row.isPrimary != 0)));
    entry.Put(ContactColumns.MethodLabel, Str(row.customLabel));
    entry.Put(ContactColumns.MethodType, Str(row.methodType));
    entry.Put(ContactColumns.MethodAuxData, Str(row.auxData));
    entry.Put(ContactColumns.MethodData, Str(row.data));
    entry.Put(ContactColumns.MethodKind, Str(row.kind));
  }

  /** The puts of one phone row on the given object. */
  method PutPhone(number: JsonObject, row: PhoneRow)
    modifies number
    ensures number.fields == PhonePuts(old(number.fields), row)
  {
    number.Put(ContactColumns.PhoneIsPrimary, Some(JBool(row.isPrimary != 0)));
    number.Put(ContactColumns.PhoneLabel, Str(row.customLabel));
    number.Put(ContactColumns.PhoneNumber, Str(row.number));
    number.Put(ContactColumns.PhoneNumberKey, Str(row.numberKey));
    number.Put(ContactColumns.PhoneType, Str(row.phoneType));
  }

  /** A fresh object with the puts of one organization row. */
  method NewOrgEntry(row: OrgRow) returns (org: JsonObject)
    ensures fresh(org) && org.fields == OrgFields(row)
  {
    org := new JsonObject();
    org.Put(ContactColumns.OrgIsPrimary, Some(JBool(row.isPrimary != 0)));
    org.Put(ContactColumns.OrgLabel, Str(row.customLabel));
    org.Put(ContactColumns.OrgTitle, Str(row.title));
    org.Put(ContactColumns.OrgCompany, Str(row.company));
    org.Put(ContactColumns.OrgType, Str(row.orgType));
  }

  method AppendContactMethods(contact: JsonObject, methods: int -> Cursor<MethodRow>)
    requires GetInt(contact.fields, ContactColumns.Id).Ok?
    modifies contact
    ensures contact.fields == old(contact.fields)[ContactColumns.ContactMethods :=
      JArr(Entries(Rows(methods(RecordId(old(contact.fields)))), MethodEntry))]
  {
    var rows := Rows(methods(RecordId(contact.fields)));
    var contactMethods: seq<Json> := [];
    var i := 0;
    while i < |rows|
      invariant 0 <= i <= |rows|
      invariant contactMethods == Entries(rows[..i], MethodEntry)
      invariant contact.fields == old(contact.fields)
    {
      var entry := NewMethodEntry(rows[i]);
      EntriesSnoc(rows, i, MethodEntry);
      contactMethods := contactMethods + [JObj(entry.fields)];
      i := i + 1;
    }
    assert rows[..|rows|] == rows;
    contact.Put(ContactColumns.ContactMethods, Some(JArr(contactMethods)));
  }

  lemma EncodedSnoc(blobs: seq<Option<Bytes>>, i: nat, encode: Bytes -> string)
    requires i < |blobs|
    ensures Encoded(blobs[..i + 1], encode)
      == Encoded(blobs[..i], encode) + (if blobs[i].Some? then [JStr(encode(blobs[i].value))] else [])
  {
    assert blobs[..i + 1][..i] == blobs[..i];
  }

  method AppendPhotos(contact: JsonObject, photos: int -> Cursor<Option<Bytes>>, encode: Bytes -> string)
    requires GetInt(contact.fields, ContactColumns.Id).Ok?
    modifies contact
    ensures contact.fields == old(contact.fields)[ContactColumns.Photos :=
      JArr(Encoded(Rows(photos(RecordId(old(contact.fields)))), encode))]
  {
    var blobs := Rows(photos(RecordId(contact.fields)));
    var encoded: seq<Json> := [];
    var i := 0;
    while i < |blobs|
      invariant 0 <= i <= |blobs|
      invariant encoded == Encoded(blobs[..i], encode)
      invariant contact.fields == old(contact.fields)
    {
      EncodedSnoc(blobs, i, encode);
      if blobs[i].Some? {
        encoded := encoded + [JStr(encode(blobs[i].value))];
      }
      i := i + 1;
    }
    assert blobs[..|blobs|] == blobs;
    contact.Put(ContactColumns.Photos, Some(JArr(encoded)));
  }

  method AppendPhoneNumbers(contact: JsonObject, phones: int -> Cursor<PhoneRow>)
    requires GetInt(contact.fields, ContactColumns.Id).Ok?
    modifies contact
    ensures contact.fields == old(contact.fields)[ContactColumns.PhoneNumbers :=
      JArr(Entries(Rows(phones(RecordId(old(contact.fields)))), PhoneEntry))]
  {
    var rows := Rows(phones(RecordId(contact.fields)));
    var phonenumbers: seq<Json> := [];
    var i := 0;
    while i < |rows|
      invariant 0 <= i <= |rows|
      invariant phonenumbers == Entries(rows[..i], PhoneEntry)
      invariant contact.fields == old(contact.fields)
    {
      var number := new JsonObject();
      PutPhone(number, rows[i]);
      EntriesSnoc(rows, i, PhoneEntry);
      phonenumbers := phonenumbers + [JObj(number.fields)];
      i := i + 1;
    }
    assert rows[..|rows|] == rows;
    contact.Put(ContactColumns.PhoneNumbers, Some(JArr(phonenumbers)));
  }

  method AppendOrganizations(contact: JsonObject, organizations: int -> Cursor<OrgRow>)
    requires GetInt(contact.fields, ContactColumns.Id).Ok?
    modifies contact
    ensures contact.fields == old(contact.fields)[ContactColumns.Organizations :=
      JArr(Entries(Rows(organizations(RecordId(old(contact.fields)))), OrgEntry))]
  {
    var rows := Rows(organizations(RecordId(contact.fields)));
    var orgs: seq<Json> := [];
    var i := 0;
    while i < |rows|
      invariant 0 <= i <= |rows|
      invariant orgs == Entries(rows[..i], OrgEntry)
      invariant contact.fields == old(contact.fields)
    {
      var org := NewOrgEntry(rows[i]);
      EntriesSnoc(rows, i, OrgEntry);
      orgs := orgs + [JObj(org.fields)];
      i := i + 1;
    }
    assert rows[..|rows|] == rows;
    contact.Put(ContactColumns.Organizations, Some(JArr(orgs)));
  }

  lemma SharedFieldsSnoc(rows: seq<PhoneRow>, i: nat)
    requires i < |rows|
    ensures SharedFields(rows[..i + 1]) == PhonePuts(SharedFields(rows[..i]), rows[i])
  {
    assert rows[..i + 1][..i] == rows[..i];
  }

  /** The older phone helper: one object, overwritten for every row, and a reference to it appended per row. */
  method LegacyAppendPhoneNumbers(contact: JsonObject, phones: int -> Cursor<PhoneRow>)
    requires GetInt(contact.fields, ContactColumns.Id).Ok?
    modifies contact
    ensures contact.fields == old(contact.fields)[ContactColumns.LegacyPhoneNumbers :=
      JArr(SharedEntries(Rows(phones(RecordId(old(contact.fields))))))]
  {
    var rows := Rows(phones(RecordId(contact.fields)));
    var number, phonenumbers := SharedPhones(rows);
    // The array is serialized later, from the objects it refers to; every one of them is `number`.
    var shared := number.fields;
    var items := seq(|phonenumbers|, _ => JObj(shared));
    contact.Put(ContactColumns.LegacyPhoneNumbers, Some(JArr(items)));
  }

  /** The loop of the older phone helper: every row is put into the same fresh object, and the array holds a reference to it per row. */
  method SharedPhones(rows: seq<PhoneRow>) returns (number: JsonObject, phonenumbers: seq<JsonObject>)
    ensures fresh(number) && number.fields == SharedFields(rows)
    ensures |phonenumbers| == |rows| && forall j :: 0 <= j < |rows| ==> phonenumbers[j] == number
  {
    phonenumbers := [];
    number := new JsonObject();
    var i := 0;
    while i < |rows|
      invariant 0 <= i <= |rows|
      invariant number.fields == SharedFields(rows[..i])
      invariant |phonenumbers| == i && forall j :: 0 <= j < i ==> phonenumbers[j] == number
    {
      PutPhone(number, rows[i]);
      SharedFieldsSnoc(rows, i);
      phonenumbers := phonenumbers + [number];
      i := i + 1;
    }
    assert rows[..|rows|] == rows;
  }

  // ---------------------------------------------------------------------
  // One record.

  /** The scalar puts of a record: the id as a number, every other column as nullable text. */
  function PersonFields(row: PersonRow, rev: Revision): Fields
  {
    var f0 := map[ContactColumns.Id := JInt(row.id)];
    var f1 := Updated(f0, ContactColumns.Name, Str(row.name));
    var f2 := Updated(f1, ContactColumns.CustomRingTone, Str(row.customRingTone));
    var f3 := Updated(f2, ContactColumns.DisplayName, Str(row.displayName));
    var f4 := Updated(f3, ContactColumns.LastTimeContacted, Str(row.lastTimeContacted));
    var f5 := Updated(f4, ContactColumns.Notes, Str(row.notes));
    var f6 := Updated(f5, ContactColumns.PhoneticName, Str(row.phoneticName));
    var f7 := Updated(f6, ContactColumns.SendToVoicemail, Str(row.sendToVoicemail));
    var f8 := Updated(f7, ContactColumns.Starred, Str(row.starred));
    var f9 := Updated(f8, ContactColumns.TimesContacted, Str(row.timesContacted));
    if rev == Current then f9 else Updated(f9, ContactColumns.PhotoVersion, Str(row.photoVersion))
  }

  /** The collections the helpers attach to a record with the given id, in the order they attach them. */
  function Attached(f: Fields, id: int, db: Contacts, encode: Bytes -> string, rev: Revision): Fields
  {
    var photos := JArr(Encoded(Rows(db.photos(id)), encode));
    if rev == Current then
      f[ContactColumns.ContactMethods := JArr(Entries(Rows(db.methods(id)), MethodEntry))]
       [ContactColumns.Photos := photos]
       [ContactColumns.PhoneNumbers := JArr(Entries(Rows(db.phones(id)), PhoneEntry))]
       [ContactColumns.Organizations := JArr(Entries(Rows(db.organizations(id)), OrgEntry))]
    else
      f[ContactColumns.LegacyPhoneNumbers := JArr(SharedEntries(Rows(db.phones(id))))]
       [ContactColumns.Photos := photos]
  }

  /** The whole record: the scalar puts, then the collections. */
  function ContactFields(row: PersonRow, db: Contacts, encode: Bytes -> string, rev: Revision): Fields
  {
    Attached(PersonFields(row, rev), row.id, db, encode, rev)
  }

  /** A fresh record object with the scalar puts of one people row. */
  method NewPerson(row: PersonRow, rev: Revision) returns (contact: JsonObject)
    ensures fresh(contact) && contact.fields == PersonFields(row, rev)
  {
    contact := new JsonObject();
    contact.Put(ContactColumns.Id, Some(JInt(row.id)));
    contact.Put(ContactColumns.Name, Str(row.name));
    contact.Put(ContactColumns.CustomRingTone, Str(row.customRingTone));
    contact.Put(ContactColumns.DisplayName, Str(row.displayName));
    contact.Put(ContactColumns.LastTimeContacted, Str(row.lastTimeContacted));
    contact.Put(ContactColumns.Notes, Str(row.notes));
    contact.Put(ContactColumns.PhoneticName, Str(row.phoneticName));
    contact.Put(ContactColumns.SendToVoicemail, Str(row.sendToVoicemail));
    contact.Put(ContactColumns.Starred, Str(row.starred));
    contact.Put(ContactColumns.TimesContacted, Str(row.timesContacted));
    if rev == Legacy {
      contact.Put(ContactColumns.PhotoVersion, Str(row.photoVersion));
    }
  }

  /** Attaching an array under another key keeps the id the helpers query by. */
  lemma IdKept(f: Fields, key: string, v: Json)
    requires GetInt(f, ContactColumns.Id).Ok? && key != ContactColumns.Id
    ensures GetInt(f[key := v], ContactColumns.Id) == GetInt(f, ContactColumns.Id)
  {
  }

  /** Builds one record with put calls and the append helpers, in the order the revision calls them. */
  method BuildContact(row: PersonRow, db: Contacts, encode: Bytes -> string, rev: Revision) returns (fields: Fields)
    ensures fields == ContactFields(row, db, encode, rev)
  {
    var contact := NewPerson(row, rev);
    RecordIdOfPerson(row, rev);
    ghost var f0 := contact.fields;
    if rev == Current {
      AppendContactMethods(contact, db.methods);
      IdKept(f0, ContactColumns.ContactMethods, contact.fields[ContactColumns.ContactMethods]);
      ghost var f1 := contact.fields;
      AppendPhotos(contact, db.photos, encode);
      IdKept(f1, ContactColumns.Photos, contact.fields[ContactColumns.Photos]);
      ghost var f2 := contact.fields;
      AppendPhoneNumbers(contact, db.phones);
      IdKept(f2, ContactColumns.PhoneNumbers, contact.fields[ContactColumns.PhoneNumbers]);
      AppendOrganizations(contact, db.organizations);
    } else {
      LegacyAppendPhoneNumbers(contact, db.phones);
      IdKept(f0, ContactColumns.LegacyPhoneNumbers, contact.fields[ContactColumns.LegacyPhoneNumbers]);
      AppendPhotos(contact, db.photos, encode);
    }
    fields := contact.fields;
  }

  /** The id put first survives the other scalar puts. */
  lemma RecordIdOfPerson(row: PersonRow, rev: Revision)
    ensures ContactColumns.Id in PersonFields(row, rev) && PersonFields(row, rev)[ContactColumns.Id] == JInt(row.id)
    ensures GetInt(PersonFields(row, rev), ContactColumns.Id) == Ok(row.id)
  {
    ContactColumns.RecordKeysDiffer();
  }

  /** Each scalar column the restore reads is under its key, absent when null. */
  lemma PersonShape(row: PersonRow, rev: Revision)
    ensures Holds(PersonFields(row, rev), ContactColumns.Name, row.name)
    ensures Holds(PersonFields(row, rev), ContactColumns.TimesContacted, row.timesContacted)
    ensures Holds(PersonFields(row, rev), ContactColumns.Starred, row.starred)
  {
    ContactColumns.RecordKeysDiffer();
  }

  /** Attaching the collections leaves every other key as it was. */
  lemma AttachedKeeps(f: Fields, id: int, db: Contacts, encode: Bytes -> string, rev: Revision, key: string)
    requires key != ContactColumns.ContactMethods && key != ContactColumns.Photos && key != ContactColumns.PhoneNumbers
      && key != ContactColumns.Organizations && key != ContactColumns.LegacyPhoneNumbers
    ensures key in Attached(f, id, db, encode, rev) <==> key in f
    ensures key in f ==> Attached(f, id, db, encode, rev)[key] == f[key]
  {
  }

  /**
   * Every record carries its id as a number, each scalar column the restore
   * reads under its key (absent when null), and the photos as an array,
   * empty when the query returned no cursor or no rows.
   */
  lemma ContactShape(row: PersonRow, db: Contacts, encode: Bytes -> string, rev: Revision)
    ensures var f := ContactFields(row, db, encode, rev);
      && ContactColumns.Id in f && f[ContactColumns.Id] == JInt(row.id)
      && Holds(f, ContactColumns.Name, row.name)
      && Holds(f, ContactColumns.TimesContacted, row.timesContacted)
      && Holds(f, ContactColumns.Starred, row.starred)
  {
    ContactColumns.RecordKeysDiffer();
    RecordIdOfPerson(row, rev);
    PersonShape(row, rev);
    AttachedKeeps(PersonFields(row, rev), row.id, db, encode, rev, ContactColumns.Id);
    AttachedKeeps(PersonFields(row, rev), row.id, db, encode, rev, ContactColumns.Name);
    AttachedKeeps(PersonFields(row, rev), row.id, db, encode, rev, ContactColumns.TimesContacted);
    AttachedKeeps(PersonFields(row, rev), row.id, db, encode, rev, ContactColumns.Starred);
  }

  /** The photo array is always present, empty when the query returned no cursor. */
  lemma PhotosPresent(row: PersonRow, db: Contacts, encode: Bytes -> string, rev: Revision)
    ensures var f := ContactFields(row, db, encode, rev);
      && ContactColumns.Photos in f && f[ContactColumns.Photos] == JArr(Encoded(Rows(db.photos(row.id)), encode))
      && (db.photos(row.id).None? ==> f[ContactColumns.Photos] == JArr([]))
  {
    assert ContactColumns.Photos != ContactColumns.PhoneNumbers && ContactColumns.Photos != ContactColumns.Organizations;
  }

  /** The current revision attaches every collection as an array, empty when the query returned no cursor. */
  lemma CollectionsPresent(f: Fields, id: int, db: Contacts, encode: Bytes -> string)
    ensures var g := Attached(f, id, db, encode, Current);
      && ContactColumns.ContactMethods in g && g[ContactColumns.ContactMethods] == JArr(Entries(Rows(db.methods(id)), MethodEntry))
      && ContactColumns.Photos in g && g[ContactColumns.Photos] == JArr(Encoded(Rows(db.photos(id)), encode))
      && ContactColumns.PhoneNumbers in g && g[ContactColumns.PhoneNumbers] == JArr(Entries(Rows(db.phones(id)), PhoneEntry))
      && ContactColumns.Organizations in g && g[ContactColumns.Organizations] == JArr(Entries(Rows(db.organizations(id)), OrgEntry))
      && (db.methods(id).None? ==> g[ContactColumns.ContactMethods] == JArr([]))
      && (db.phones(id).None? ==> g[ContactColumns.PhoneNumbers] == JArr([]))
      && (db.organizations(id).None? ==> g[ContactColumns.Organizations] == JArr([]))
  {
    assert ContactColumns.ContactMethods != ContactColumns.Photos && ContactColumns.ContactMethods != ContactColumns.PhoneNumbers
      && ContactColumns.ContactMethods != ContactColumns.Organizations && ContactColumns.Photos != ContactColumns.PhoneNumbers
      && ContactColumns.Photos != ContactColumns.Organizations && ContactColumns.PhoneNumbers != ContactColumns.Organizations;
  }

  /** The older revision attaches its phone array, every entry the last phone row, and the photos. */
  lemma LegacyCollectionsPresent(f: Fields, id: int, db: Contacts, encode: Bytes -> string)
    ensures var g := Attached(f, id, db, encode, Legacy);
      && ContactColumns.LegacyPhoneNumbers in g && g[ContactColumns.LegacyPhoneNumbers] == JArr(SharedEntries(Rows(db.phones(id))))
      && ContactColumns.Photos in g && g[ContactColumns.Photos] == JArr(Encoded(Rows(db.photos(id)), encode))
  {
    assert ContactColumns.LegacyPhoneNumbers != ContactColumns.Photos;
  }

  // ---------------------------------------------------------------------
  // The dump.

  /** The text `toString(3)` gives for a record; `None` when it throws. */
  type Render = Json -> Option<string>

  /** The rendered record of every people row, in cursor order. */
  function Records(db: Contacts, encode: Bytes -> string, render: Render, rev: Revision): (texts: seq<Option<string>>)
    ensures |texts| == |db.people|
  {
    seq(|db.people|, i requires 0 <= i < |db.people| => render(JObj(ContactFields(db.people[i], db, encode, rev))))
  }

  /** What row i of n adds to the file: nothing when encoding throws, else the text and, unless last, a separator. */
  function Piece(text: Option<string>, i: nat, n: nat): string
  {
    match text
    case None => ""
    case Some(t) => t + (if i < n - 1 then ",\n" else "")
  }

  /** The file text the first k rows leave after the opening bracket. */
  function Body(texts: seq<Option<string>>, k: nat): string
    requires k <= |texts|
    decreases k
  {
    if k == 0 then [] else Body(texts, k - 1) + Piece(texts[k - 1], k - 1, |texts|)
  }

  /** The whole file for the given rendered records. */
  function Dump(texts: seq<Option<string>>): string
  {
    "[\n" + Body(texts, |texts|) + "]\n"
  }

  function BackupText(db: Contacts, encode: Bytes -> string, render: Render, rev: Revision): string
  {
    Dump(Records(db, encode, render, rev))
  }

  /** One progress message per row, position i+1 of n. */
  function RowProgress(k: nat, n: nat): seq<Event>
    decreases k
  {
    if k == 0 then [] else RowProgress(k - 1, n) + [Progress(k, n)]
  }

  /** The rendered text of one built record. */
  method RenderRow(db: Contacts, encode: Bytes -> string, render: Render, rev: Revision, position: nat) returns (text: Option<string>)
    requires position < |db.people|
    ensures text == Records(db, encode, render, rev)[position]
  {
    var contact := BuildContact(db.people[position], db, encode, rev);
    text := render(JObj(contact));
  }

  /** The backup loop over the people rows: the file and the progress messages. Writes that fail are not modelled. */
  method Run(db: Contacts, encode: Bytes -> string, render: Render, rev: Revision) returns (out: string, events: seq<Event>)
    ensures out == BackupText(db, encode, render, rev)
    ensures events == RowProgress(|db.people|, |db.people|)
  {
    ghost var texts := Records(db, encode, render, rev);
    var count := |db.people|;
    out := "[\n";
    events := [];
    var position := 0;
    while position < count
      invariant 0 <= position <= count
      invariant out == "[\n" + Body(texts, position)
      invariant events == RowProgress(position, count)
    {
      var text := RenderRow(db, encode, render, rev, position);
      if text.Some? {
        out := out + text.value;
        if position < count - 1 {
          out := out + ",\n";
        }
      }
      events := events + [Progress(position + 1, count)];
      position := position + 1;
    }
    out := out + "]\n";
  }

  // ---------------------------------------------------------------------
  // Properties of the dump.

  /** The records joined with a separator between neighbours and none after the last. */
  function Join(texts: seq<string>, sep: string): string
    decreases |texts|
  {
    if texts == [] then []
    else if |texts| == 1 then texts[0]
    else Join(texts[..|texts| - 1], sep) + sep + texts[|texts| - 1]
  }

  /** The texts of the records that rendered, in order. */
  function Successful(texts: seq<Option<string>>): seq<string>
    decreases |texts|
  {
    if texts == [] then []
    else Successful(texts[..|texts| - 1]) + (if texts[|texts| - 1].Some? then [texts[|texts| - 1].value] else [])
  }

  predicate AllRendered(texts: seq<Option<string>>)
  {
    forall i :: 0 <= i < |texts| ==> texts[i].Some?
  }

  /** The separator the first k of n rendered records leave after the last of them. */
  function Trailer(k: nat, n: nat): string
  {
    if 0 < k < n then ",\n" else ""
  }

  lemma {:induction false} BodyJoins(texts: seq<Option<string>>, k: nat)
    requires k <= |texts| && AllRendered(texts)
    ensures Body(texts, k) == Join(Successful(texts[..k]), ",\n") + Trailer(k, |texts|)
    decreases k
  {
    if k == 1 {
      var t := texts[0].value;
      assert texts[..1][..0] == [];
      assert Successful(texts[..1]) == [t];
      assert Body(texts, 1) == [] + (t + Trailer(1, |texts|));
    } else if k > 1 {
      BodyJoins(texts, k - 1);
      BodyJoinsStep(texts, k);
    }
  }

  lemma BodyJoinsStep(texts: seq<Option<string>>, k: nat)
    requires 1 < k <= |texts| && AllRendered(texts)
    requires Body(texts, k - 1) == Join(Successful(texts[..k - 1]), ",\n") + ",\n"
    ensures Body(texts, k) == Join(Successful(texts[..k]), ",\n") + Trailer(k, |texts|)
  {
    var t := texts[k - 1].value;
    var before := Successful(texts[..k - 1]);
    var j := Join(before, ",\n");
    assert texts[..k][..k - 1] == texts[..k - 1];
    assert Successful(texts[..k]) == before + [t];
    SuccessfulCount(texts[..k - 1]);
    assert (before + [t])[..|before + [t]| - 1] == before;
    assert Join(before + [t], ",\n") == j + ",\n" + t;
    assert Body(texts, k) == (j + ",\n") + (t + Trailer(k, |texts|));
    assert (j + ",\n" + t) + Trailer(k, |texts|) == (j + ",\n") + (t + Trailer(k, |texts|));
  }

  lemma {:induction false} SuccessfulCount(texts: seq<Option<string>>)
    requires AllRendered(texts)
    ensures |Successful(texts)| == |texts|
    decreases |texts|
  {
    if texts != [] {
      SuccessfulCount(texts[..|texts| - 1]);
    }
  }

  /** When every record renders, the file is the records joined by ",\n" inside "[\n" and "]\n": N records, N-1 separators. */
  lemma WellFormedDump(texts: seq<Option<string>>)
    requires AllRendered(texts)
    ensures Dump(texts) == "[\n" + Join(Successful(texts), ",\n") + "]\n"
  {
    BodyJoins(texts, |texts|);
    assert texts[..|texts|] == texts;
    assert Join(Successful(texts), ",\n") + "" == Join(Successful(texts), ",\n");
  }

  /** No rows give the empty array. */
  lemma EmptyDump(db: Contacts, encode: Bytes -> string, render: Render, rev: Revision)
    requires db.people == []
    ensures BackupText(db, encode, render, rev) == "[\n]\n"
  {
  }

  /** A record that does not render is dropped; if it is the last one, the separator after the one before stays before the bracket. */
  lemma TrailingSeparator(texts: seq<Option<string>>)
    requires |texts| >= 2 && texts[|texts| - 2].Some? && texts[|texts| - 1].None?
    ensures var n := |texts|;
      Dump(texts) == "[\n" + (Body(texts, n - 2) + (texts[n - 2].value + ",\n")) + "]\n"
  {
    var n := |texts|;
    var t := texts[n - 2].value;
    assert Piece(texts[n - 1], n - 1, n) == [];
    assert Body(texts, n - 1) + [] == Body(texts, n - 1);
    assert Piece(texts[n - 2], n - 2, n) == t + ",\n";
  }

  lemma {:induction false} RowProgressShape(k: nat, n: nat)
    ensures |RowProgress(k, n)| == k
    ensures forall i :: 0 <= i < k ==> RowProgress(k, n)[i] == Progress(i + 1, n)
    decreases k
  {
    if k > 0 {
      RowProgressShape(k - 1, n);
    }
  }

  lemma {:induction false} PositionsOfRows(k: nat, n: nat)
    ensures |Positions(RowProgress(k, n))| == k
    ensures forall i :: 0 <= i < k ==> Positions(RowProgress(k, n))[i] == i + 1
    decreases k
  {
    if k > 0 {
      PositionsOfRows(k - 1, n);
      PositionsAppend(RowProgress(k - 1, n), [Progress(k, n)]);
      assert [Progress(k, n)][..0] == [];
    }
  }

  lemma {:induction false} NoEarlyCompletion(k: nat, n: nat)
    requires k < n
    ensures TerminalCount(RowProgress(k, n)) == 0
    decreases k
  {
    if k > 0 {
      NoEarlyCompletion(k - 1, n);
      TerminalCountAppend(RowProgress(k - 1, n), [Progress(k, n)]);
      assert [Progress(k, n)][..0] == [];
    }
  }

  /** Positions 1..n with total n: increasing, and only the last message reports completion; none at all for no rows. */
  lemma BackupProgress(n: nat)
    ensures |RowProgress(n, n)| == n
    ensures StrictlyIncreasing(Positions(RowProgress(n, n)))
    ensures forall i :: 0 <= i < n ==> (IsTerminal(RowProgress(n, n)[i]) <==> i == n - 1)
    ensures TerminalCount(RowProgress(n, n)) == if n > 0 then 1 else 0
  {
    RowProgressShape(n, n);
    PositionsOfRows(n, n);
    if n > 0 {
      NoEarlyCompletion(n - 1, n);
      TerminalCountAppend(RowProgress(n - 1, n), [Progress(n, n)]);
      assert [Progress(n, n)][..0] == [];
    }
  }

  // ---------------------------------------------------------------------
  // The code as written.

  /** The buffer size the current writer asks for: 1000 bytes per row, in int arithmetic. */
  function WriterBufferSize(count: nat): int
  {
    Int32(1000 * count)
  }

  /** A buffered stream refuses a size that is not positive. */
  predicate WriterOpens(count: nat)
  {
    WriterBufferSize(count) > 0
  }

  datatype Written = Written(text: string, events: seq<Event>)

  /** One of the four child queries of the person returned no cursor. */
  predicate CursorMissing(row: PersonRow, db: Contacts)
  {
    db.methods(row.id).None? || db.photos(row.id).None? || db.phones(row.id).None? || db.organizations(row.id).None?
  }

  /** The first row from `from` on whose record crashes as written (`ContactAsWritten`); the row count when none does. */
  function FirstCrash(db: Contacts, from: nat): (c: nat)
    requires from <= |db.people|
    ensures from <= c <= |db.people|
    ensures c < |db.people| ==> CursorMissing(db.people[c], db)
    ensures forall i :: from <= i < c ==> !CursorMissing(db.people[i], db)
    decreases |db.people| - from
  {
    if from == |db.people| || CursorMissing(db.people[from], db) then from
    else FirstCrash(db, from + 1)
  }

  /** One of the first k records rendered, so the writer was flushed after it. */
  predicate Flushed(texts: seq<Option<string>>, k: nat)
  {
    exists i :: 0 <= i < k && i < |texts| && texts[i].Some?
  }

  /**
   * The file and messages as the code is written. When the buffered stream
   * refuses its size, the thread dies before the opening bracket: the
   * freshly created file stays empty and nothing is posted. When a row's
   * record crashes on a missing cursor, the thread dies at that row: the
   * file keeps what the last flush, after the last record that rendered
   * before it, pushed out (nothing if none did), without the closing
   * bracket, and progress was posted for the rows before it only. The
   * older revision uses the default buffer size.
   */
  function BackupAsWritten(db: Contacts, encode: Bytes -> string, render: Render, rev: Revision): (w: Written)
    ensures rev == Current && !WriterOpens(|db.people|) ==> w == Written([], [])
    ensures rev == Legacy || (WriterOpens(|db.people|) && FirstCrash(db, 0) == |db.people|) ==>
      w == Written(BackupText(db, encode, render, rev), RowProgress(|db.people|, |db.people|))
    ensures rev == Current && WriterOpens(|db.people|) && FirstCrash(db, 0) < |db.people| ==>
      var j := FirstCrash(db, 0);
      var texts := Records(db, encode, render, Current);
      && w.events == RowProgress(j, |db.people|)
      && w.text == (if Flushed(texts, j) then "[\n" + Body(texts, j) else [])
  {
    var n := |db.people|;
    if rev == Current && !WriterOpens(n) then Written([], [])
    else if rev == Legacy || FirstCrash(db, 0) == n then Written(BackupText(db, encode, render, rev), RowProgress(n, n))
    else
      var j := FirstCrash(db, 0);
      var texts := Records(db, encode, render, Current);
      Written(if Flushed(texts, j) then "[\n" + Body(texts, j) else [], RowProgress(j, n))
  }

  lemma {:induction false} BodyPrefix(texts: seq<Option<string>>, j: nat, k: nat)
    requires j <= k <= |texts|
    ensures Body(texts, j) <= Body(texts, k)
    decreases k
  {
    if j < k {
      BodyPrefix(texts, j, k - 1);
    }
  }

  /**
   * A crash on a missing cursor leaves the file truncated: a proper prefix
   * of the intended dump, without its closing bracket; and the dialog never
   * sees the last row's progress.
   */
  lemma CrashTruncates(db: Contacts, encode: Bytes -> string, render: Render)
    requires WriterOpens(|db.people|) && FirstCrash(db, 0) < |db.people|
    ensures var w := BackupAsWritten(db, encode, render, Current);
      && w.text < BackupText(db, encode, render, Current)
      && |w.events| == FirstCrash(db, 0)
      && TerminalCount(w.events) == 0
  {
    var n := |db.people|;
    var j := FirstCrash(db, 0);
    var texts := Records(db, encode, render, Current);
    BodyPrefix(texts, j, n);
    assert "[\n" + Body(texts, j) <= "[\n" + Body(texts, n);
    assert BackupText(db, encode, render, Current) == ("[\n" + Body(texts, n)) + "]\n";
    RowProgressShape(j, n);
    NoEarlyCompletion(j, n);
  }

  /** A crash on the first row leaves an empty file and no message, although the stream opened. */
  lemma FirstRowCrashWritesNothing(db: Contacts, encode: Bytes -> string, render: Render)
    requires WriterOpens(|db.people|) && |db.people| > 0 && CursorMissing(db.people[0], db)
    ensures BackupAsWritten(db, encode, render, Current) == Written([], [])
    ensures BackupText(db, encode, render, Current) != []
  {
    assert FirstCrash(db, 0) == 0;
  }

  /** As written, an empty store gives an empty file, not the empty array the code means to write. */
  lemma EmptyStoreWritesNothing(db: Contacts, encode: Bytes -> string, render: Render)
    requires db.people == []
    ensures BackupAsWritten(db, encode, render, Current) == Written([], [])
    ensures BackupText(db, encode, render, Current) == "[\n]\n"
  {
  }

  /** As written, 2147484 rows overflow the size to a negative int, with the same effect. */
  lemma OverflowingStoreWritesNothing(db: Contacts, encode: Bytes -> string, render: Render)
    requires |db.people| == 2147484
    ensures WriterBufferSize(|db.people|) < 0
    ensures BackupAsWritten(db, encode, render, Current) == Written([], [])
  {
  }

  /** Within the int range the size is positive for every non-empty store up to 2147483 rows. */
  lemma WriterOpensBelowOverflow(count: nat)
    requires 0 < count <= 2147483
    ensures WriterOpens(count)
  {
  }

  /**
   * The current helpers as written: the array is attached, then `close` is
   * called on the cursor even when the query returned none, which throws a
   * NullPointerException that no handler catches. `None` is that crash.
   */
  function ContactAsWritten(row: PersonRow, db: Contacts, encode: Bytes -> string): Option<Fields>
  {
    if CursorMissing(row, db) then None
    else Some(ContactFields(row, db, encode, Current))
  }

  /** As written, a missing cursor crashes the backup; the corrected record carries an empty array instead. */
  lemma MissingCursorCrashes(row: PersonRow, db: Contacts, encode: Bytes -> string)
    ensures ContactAsWritten(row, db, encode).None? <==>
      db.methods(row.id).None? || db.photos(row.id).None? || db.phones(row.id).None? || db.organizations(row.id).None?
    ensures db.photos(row.id).None? ==> ContactFields(row, db, encode, Current)[ContactColumns.Photos] == JArr([])
    ensures ContactAsWritten(row, db, encode).Some? ==> ContactAsWritten(row, db, encode).value == ContactFields(row, db, encode, Current)
  {
  }
}
