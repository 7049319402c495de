/**
 * Backup followed by restore. A record the backup writes is read back by
 * the restore's getters; the file the backup writes is cut by the restore's
 * brace counter into exactly the records that rendered; and restoring the
 * file performs, record by record, the store calls of those records.
 */
module RoundTrip {
  import opened Wrappers
  import opened Json
  import ContactColumns
  import opened Events
  import opened BraceSplitter
  import opened StoreContact
  import opened Restore
  import Backup

  // ---------------------------------------------------------------------
  // One record.

  /** What the current restore inserts for a phone row the current backup wrote, if the getters accept it. */
  function ReadBackPhone(p: Backup.PhoneRow): Option<ContentValues>
  {
    if p.number.Some? && p.phoneType.Some? && ParseInt(p.phoneType.value).Some? then
      Some(map[PhoneTypeColumn := Number(ParseInt(p.phoneType.value).value),
               PhoneNumberColumn := Text(p.number.value),
               PhoneIsPrimaryColumn := Number(if p.isPrimary != 0 then 1 else 0)])
    else None
  }

  /**
   * A phone entry reads back exactly when `getInt` accepts the text of its
   * type column (`ParseInt`) and its number is not null; then the insert
   * has the type as `getInt` reads it, the number and the primary flag of
   * the row.
   */
  lemma PhoneBack(p: Backup.PhoneRow)
    ensures PhoneValues(Backup.PhoneFields(p), Current).Ok? <==> ReadBackPhone(p).Some?
    ensures ReadBackPhone(p).Some? ==> PhoneValues(Backup.PhoneFields(p), Current).value == ReadBackPhone(p).value
  {
    Backup.PhoneEntryShape(p);
    PhoneFieldsBack(Backup.PhoneFields(p), p);
  }

  /** Reading the insert request back from any fields that carry the phone row as an entry does. */
  lemma PhoneFieldsBack(f: Fields, p: Backup.PhoneRow)
    requires ContactColumns.PhoneIsPrimary in f && f[ContactColumns.PhoneIsPrimary] == JBool(p.isPrimary != 0)
    requires Backup.Holds(f, ContactColumns.PhoneNumber, p.number)
    requires Backup.Holds(f, ContactColumns.PhoneType, p.phoneType)
    ensures PhoneValues(f, Current).Ok? <==> ReadBackPhone(p).Some?
    ensures ReadBackPhone(p).Some? ==> PhoneValues(f, Current).value == ReadBackPhone(p).value
  {
  }

  /** What the restore creates for a people row the same revision's backup wrote, if the getters accept it. */
  function ReadBackPerson(row: Backup.PersonRow, rev: Revision): Option<ContentValues>
  {
    if row.name.None? then None
    else if rev == Legacy then
      Some(map[PeopleId := Text(IntToString(row.id)), PeopleName := Text(row.name.value)])
    else if row.timesContacted.Some? && row.starred.Some? && ParseInt(row.starred.value).Some? then
      Some(map[PeopleId := Text(IntToString(row.id)), PeopleName := Text(row.name.value),
               PeopleTimesContacted := Text(row.timesContacted.value),
               PeopleStarred := Number(ParseInt(row.starred.value).value)])
    else None
  }

  /** Reading the create request back from any fields that carry the people row as a record does. */
  lemma PersonFieldsBack(f: Fields, row: Backup.PersonRow, rev: Revision)
    requires ContactColumns.Id in f && f[ContactColumns.Id] == JInt(row.id)
    requires Backup.Holds(f, ContactColumns.Name, row.name)
    requires Backup.Holds(f, ContactColumns.TimesContacted, row.timesContacted)
    requires Backup.Holds(f, ContactColumns.Starred, row.starred)
    ensures PersonValues(f, rev).Ok? <==> ReadBackPerson(row, rev).Some?
    ensures ReadBackPerson(row, rev).Some? ==> PersonValues(f, rev).value == ReadBackPerson(row, rev).value
    ensures row.name.None? ==> PersonValues(f, rev) == Err(NotFound(ContactColumns.Name))
  {
    NumberReadAsStringAndInt(f, ContactColumns.Id, row.id);
  }

  /**
   * The create request read back from a record: the id comes back as its
   * decimal text, the name and times contacted as written, starred as
   * `getInt` parses it. A null name (or, in the current revision, a null
   * times contacted or a starred text `getInt` refuses) makes the getter
   * throw.
   */
  lemma PersonBack(row: Backup.PersonRow, db: Backup.Contacts, encode: Bytes -> string, rev: Revision)
    ensures var f := Backup.ContactFields(row, db, encode, rev);
      && (PersonValues(f, rev).Ok? <==> ReadBackPerson(row, rev).Some?)
      && (ReadBackPerson(row, rev).Some? ==> PersonValues(f, rev).value == ReadBackPerson(row, rev).value)
  {
    Backup.ContactShape(row, db, encode, rev);
    PersonFieldsBack(Backup.ContactFields(row, db, encode, rev), row, rev);
  }

  /** A contact without a name is written without the key, and reading it back throws. */
  lemma NamelessContactUnreadable(row: Backup.PersonRow, db: Backup.Contacts, encode: Bytes -> string, rev: Revision)
    requires row.name.None?
    ensures PersonValues(Backup.ContactFields(row, db, encode, rev), rev) == Err(NotFound(ContactColumns.Name))
  {
    Backup.ContactShape(row, db, encode, rev);
    PersonFieldsBack(Backup.ContactFields(row, db, encode, rev), row, rev);
  }

  /** The photo the current restore sets: the first non-null blob, unless its encoding is empty. */
  function ReadBackPhoto(blobs: seq<Option<Bytes>>, encode: Bytes -> string, person: PersonId): seq<StoreOp>
  {
    match Backup.FirstBlob(blobs)
    case None => []
    case Some(b) => if encode(b) == "" then [] else [SetPhoto(person, b)]
  }

  /** With a decoder that inverts the encoder on the first blob, the photo comes back; the other blobs are not read. */
  lemma PhotoBack(row: Backup.PersonRow, db: Backup.Contacts, encode: Bytes -> string, person: PersonId,
                  decode: string -> Option<Bytes>)
    requires var b := Backup.FirstBlob(Backup.Rows(db.photos(row.id))); b.Some? ==> decode(encode(b.value)) == b
    ensures PhotoSteps(Backup.ContactFields(row, db, encode, Current), person, decode)
      == Stored(ReadBackPhoto(Backup.Rows(db.photos(row.id)), encode, person), Pass)
  {
    Backup.PhotosPresent(row, db, encode, Current);
    Backup.EncodedPhotos(Backup.Rows(db.photos(row.id)), encode);
  }

  /** The inserts the current restore performs for the phone rows of one person. */
  function ReadBackPhones(rows: seq<Backup.PhoneRow>, person: PersonId): seq<StoreOp>
    requires forall i :: 0 <= i < |rows| ==> ReadBackPhone(rows[i]).Some?
  {
    seq(|rows|, i requires 0 <= i < |rows| => InsertPhone(person, ReadBackPhone(rows[i]).value))
  }

  lemma PhonesReadable(rows: seq<Backup.PhoneRow>)
    requires forall i :: 0 <= i < |rows| ==> ReadBackPhone(rows[i]).Some?
    ensures |Backup.Entries(rows, Backup.PhoneEntry)| == |rows|
    ensures ReadablePhones(Backup.Entries(rows, Backup.PhoneEntry), Current)
    ensures forall i :: 0 <= i < |rows| ==>
      PhoneValues(Backup.Entries(rows, Backup.PhoneEntry)[i].fields, Current) == Ok(ReadBackPhone(rows[i]).value)
  {
    Backup.EntriesInOrder(rows, Backup.PhoneEntry);
    forall i | 0 <= i < |rows|
      ensures PhoneValues(Backup.Entries(rows, Backup.PhoneEntry)[i].fields, Current) == Ok(ReadBackPhone(rows[i]).value)
    {
      PhoneBack(rows[i]);
    }
  }

  /** A store call on fields whose getters all succeed: the create, one insert per phone entry and, currently, the photo step. */
  lemma StoreReadable(f: Fields, env: Env, rev: Revision, values: ContentValues, person: PersonId, phones: seq<Json>, photo: seq<StoreOp>)
    requires PersonValues(f, rev) == Ok(values) && env.create(values) == Some(person)
    requires GetArray(f, PhonesKey(rev)) == Ok(phones) && ReadablePhones(phones, rev)
    requires rev == Current ==> PhotoSteps(f, person, env.decode) == Stored(photo, Pass)
    ensures StoreSpec(f, env, rev)
      == Stored([CreatePerson(values)] + PhoneInserts(person, phones, |phones|, rev).ops + (if rev == Current then photo else []), Pass)
  {
    OneInsertPerPhone(person, phones, |phones|, rev);
    var inserts := PhoneInserts(person, phones, |phones|, rev).ops;
    assert [CreatePerson(values)] + inserts + [] == [CreatePerson(values)] + inserts;
  }

  /**
   * A current record whose columns read back, restored with a store that
   * accepts the person: the person is created with the row's values, every
   * phone row is inserted in order with its own values, and the first
   * photo is set.
   */
  lemma RecordBack(row: Backup.PersonRow, db: Backup.Contacts, encode: Bytes -> string, env: Env, person: PersonId)
    requires ReadBackPerson(row, Current).Some? && env.create(ReadBackPerson(row, Current).value) == Some(person)
    requires forall i :: 0 <= i < |Backup.Rows(db.phones(row.id))| ==> ReadBackPhone(Backup.Rows(db.phones(row.id))[i]).Some?
    requires var b := Backup.FirstBlob(Backup.Rows(db.photos(row.id))); b.Some? ==> env.decode(encode(b.value)) == b
    ensures var rows := Backup.Rows(db.phones(row.id));
      StoreSpec(Backup.ContactFields(row, db, encode, Current), env, Current)
        == Stored([CreatePerson(ReadBackPerson(row, Current).value)]
                  + ReadBackPhones(rows, person)
                  + ReadBackPhoto(Backup.Rows(db.photos(row.id)), encode, person), Pass)
  {
    var f := Backup.ContactFields(row, db, encode, Current);
    var rows := Backup.Rows(db.phones(row.id));
    var phones := Backup.Entries(rows, Backup.PhoneEntry);
    var photo := ReadBackPhoto(Backup.Rows(db.photos(row.id)), encode, person);
    var values := ReadBackPerson(row, Current).value;
    PersonBack(row, db, encode, Current);
    assert PersonValues(f, Current) == Ok(values);
    Backup.CollectionsPresent(Backup.PersonFields(row, Current), row.id, db, encode);
    assert GetArray(f, PhonesKey(Current)) == Ok(phones);
    PhotoBack(row, db, encode, person, env.decode);
    PhonesBack(f, env, values, person, rows, photo);
  }

  lemma PhonesBack(f: Fields, env: Env, values: ContentValues, person: PersonId, rows: seq<Backup.PhoneRow>, photo: seq<StoreOp>)
    requires PersonValues(f, Current) == Ok(values) && env.create(values) == Some(person)
    requires forall i :: 0 <= i < |rows| ==> ReadBackPhone(rows[i]).Some?
    requires GetArray(f, PhonesKey(Current)) == Ok(Backup.Entries(rows, Backup.PhoneEntry))
    requires PhotoSteps(f, person, env.decode) == Stored(photo, Pass)
    ensures StoreSpec(f, env, Current) == Stored([CreatePerson(values)] + ReadBackPhones(rows, person) + photo, Pass)
  {
    var phones := Backup.Entries(rows, Backup.PhoneEntry);
    InsertsBack(person, rows);
    StoreReadable(f, env, Current, values, person, phones, photo);
  }

  lemma InsertsBack(person: PersonId, rows: seq<Backup.PhoneRow>)
    requires forall i :: 0 <= i < |rows| ==> ReadBackPhone(rows[i]).Some?
    ensures ReadablePhones(Backup.Entries(rows, Backup.PhoneEntry), Current)
    ensures var phones := Backup.Entries(rows, Backup.PhoneEntry);
      PhoneInserts(person, phones, |phones|, Current) == Stored(ReadBackPhones(rows, person), Pass)
  {
    var phones := Backup.Entries(rows, Backup.PhoneEntry);
    PhonesReadable(rows);
    OneInsertPerPhone(person, phones, |phones|, Current);
  }

  /**
   * An older record with at least one phone row whose last number is not
   * null: the older restore inserts that last number once per phone row,
   * always as a mobile number, and sets no photo.
   */
  lemma LegacyRecordBack(row: Backup.PersonRow, db: Backup.Contacts, encode: Bytes -> string, env: Env, person: PersonId)
    requires ReadBackPerson(row, Legacy).Some? && env.create(ReadBackPerson(row, Legacy).value) == Some(person)
    requires var rows := Backup.Rows(db.phones(row.id)); rows != [] && rows[|rows| - 1].number.Some?
    ensures var rows := Backup.Rows(db.phones(row.id));
      var last := map[PhoneTypeColumn := Number(TypeMobile), PhoneNumberColumn := Text(rows[|rows| - 1].number.value)];
      StoreSpec(Backup.ContactFields(row, db, encode, Legacy), env, Legacy)
        == Stored([CreatePerson(ReadBackPerson(row, Legacy).value)] + seq(|rows|, _ => InsertPhone(person, last)), Pass)
  {
    var f := Backup.ContactFields(row, db, encode, Legacy);
    var rows := Backup.Rows(db.phones(row.id));
    var values := ReadBackPerson(row, Legacy).value;
    PersonBack(row, db, encode, Legacy);
    assert PersonValues(f, Legacy) == Ok(values);
    Backup.LegacyCollectionsPresent(Backup.PersonFields(row, Legacy), row.id, db, encode);
    assert GetArray(f, PhonesKey(Legacy)) == Ok(Backup.SharedEntries(rows));
    LegacyInsertsBack(person, rows);
    StoreReadable(f, env, Legacy, values, person, Backup.SharedEntries(rows), []);
  }

  lemma LegacyInsertsBack(person: PersonId, rows: seq<Backup.PhoneRow>)
    requires rows != [] && rows[|rows| - 1].number.Some?
    ensures ReadablePhones(Backup.SharedEntries(rows), Legacy)
    ensures var phones := Backup.SharedEntries(rows);
      var last := map[PhoneTypeColumn := Number(TypeMobile), PhoneNumberColumn := Text(rows[|rows| - 1].number.value)];
      PhoneInserts(person, phones, |phones|, Legacy) == Stored(seq(|rows|, _ => InsertPhone(person, last)), Pass)
  {
    var phones := Backup.SharedEntries(rows);
    Backup.SharedEntriesShowLastRow(rows);
    OneInsertPerPhone(person, phones, |phones|, Legacy);
  }

  // ---------------------------------------------------------------------
  // The file.

  /** Every record that rendered is one balanced object (no brace inside its strings throws the count off). */
  ghost predicate ObjectTexts(texts: seq<Option<string>>)
  {
    forall i :: 0 <= i < |texts| && texts[i].Some? ==> IsObjectSpan(texts[i].value)
  }

  const Top := ScanResult(Start, [])

  /** What one row adds to the file leaves the scanner between records and hands over that row's text, if any. */
  lemma ScanPiece(r: ScanResult, text: Option<string>, i: nat, n: nat)
    requires AtTop(r) && (text.Some? ==> IsObjectSpan(text.value))
    ensures AtTop(ScanFrom(r, Backup.Piece(text, i, n)))
    ensures ScanFrom(r, Backup.Piece(text, i, n)).spans == r.spans + (if text.Some? then [text.value] else [])
  {
    if text.Some? {
      var t := text.value;
      var sep: string := if i < n - 1 then ",\n" else "";
      ScanFromAppend(r, t, sep);
      ScanObject(r, t);
      ScanSeparator(ScanFrom(r, t), sep);
    } else {
      ScanSeparator(r, "");
      assert r.spans + [] == r.spans;
    }
  }

  lemma {:induction false} ScanBody(texts: seq<Option<string>>, k: nat)
    requires k <= |texts| && ObjectTexts(texts)
    ensures AtTop(ScanFrom(Top, "[\n" + Backup.Body(texts, k)))
    ensures ScanFrom(Top, "[\n" + Backup.Body(texts, k)).spans == Backup.Successful(texts[..k])
    decreases k
  {
    if k == 0 {
      assert "[\n" + Backup.Body(texts, 0) == "[\n";
      ScanSeparator(Top, "[\n");
    } else {
      ScanBody(texts, k - 1);
      var p := "[\n" + Backup.Body(texts, k - 1);
      var piece := Backup.Piece(texts[k - 1], k - 1, |texts|);
      assert ("[\n" + Backup.Body(texts, k - 1)) + piece == "[\n" + (Backup.Body(texts, k - 1) + piece);
      ScanFromAppend(Top, p, piece);
      ScanPiece(ScanFrom(Top, p), texts[k - 1], k - 1, |texts|);
      assert texts[..k][..k - 1] == texts[..k - 1];
    }
  }

  /** The brace counter cuts the backup file into exactly the records that rendered, in order. */
  lemma DumpSplits(texts: seq<Option<string>>)
    requires ObjectTexts(texts)
    ensures TopSpans(Backup.Dump(texts)) == Backup.Successful(texts)
  {
    var b := "[\n" + Backup.Body(texts, |texts|);
    ScanBody(texts, |texts|);
    ScanFromAppend(Top, b, "]\n");
    ScanSeparator(ScanFrom(Top, b), "]\n");
    ScanMatchesTopSpans(Backup.Dump(texts));
    assert texts[..|texts|] == texts;
  }

  lemma {:induction false} SuccessfulFrom(texts: seq<Option<string>>, t: string)
    requires t in Backup.Successful(texts)
    ensures exists i :: 0 <= i < |texts| && texts[i] == Some(t)
    decreases |texts|
  {
    var init := texts[..|texts| - 1];
    if t in Backup.Successful(init) {
      SuccessfulFrom(init, t);
      var i :| 0 <= i < |init| && init[i] == Some(t);
      assert texts[i] == Some(t);
    } else {
      assert texts[|texts| - 1] == Some(t);
    }
  }

  /** The parser gives back, for every record that rendered, the fields it was rendered from. */
  ghost predicate ParsesBack(db: Backup.Contacts, encode: Bytes -> string, render: Backup.Render, rev: Revision, env: Env)
  {
    forall i :: 0 <= i < |db.people| && Backup.Records(db, encode, render, rev)[i].Some? ==>
      env.parse(Backup.Records(db, encode, render, rev)[i].value) == Ok(Backup.ContactFields(db.people[i], db, encode, rev))
  }

  /** Every record that rendered is stored without an exception and has a name. */
  ghost predicate StoresCleanly(db: Backup.Contacts, encode: Bytes -> string, render: Backup.Render, rev: Revision, env: Env)
  {
    forall i :: 0 <= i < |db.people| && Backup.Records(db, encode, render, rev)[i].Some? ==>
      StoreSpec(Backup.ContactFields(db.people[i], db, encode, rev), env, rev).outcome.Pass? && db.people[i].name.Some?
  }

  /**
   * What a people row must hold for its record to store without an
   * exception: the create request reads back and, in the current revision,
   * every phone row reads back; in the older revision the one shared phone
   * entry, which shows the last phone row, has a number whenever there is
   * a phone row.
   */
  predicate RowRestorable(row: Backup.PersonRow, db: Backup.Contacts, rev: Revision)
  {
    && ReadBackPerson(row, rev).Some?
    && var rows := Backup.Rows(db.phones(row.id));
       if rev == Current then forall i :: 0 <= i < |rows| ==> ReadBackPhone(rows[i]).Some?
       else rows == [] || rows[|rows| - 1].number.Some?
  }

  /** The current photo step never throws on a record the backup wrote: the photo array holds strings only. */
  lemma PhotoStepPasses(row: Backup.PersonRow, db: Backup.Contacts, encode: Bytes -> string, person: PersonId,
                        decode: string -> Option<Bytes>)
    ensures PhotoSteps(Backup.ContactFields(row, db, encode, Current), person, decode).outcome == Pass
  {
    Backup.PhotosPresent(row, db, encode, Current);
    Backup.EncodedPhotos(Backup.Rows(db.photos(row.id)), encode);
  }

  /**
   * A record whose row is restorable stores without an exception and has a
   * name, whatever the store answers to the create request and whatever the
   * decoder returns.
   */
  lemma RowStoresCleanly(row: Backup.PersonRow, db: Backup.Contacts, encode: Bytes -> string, env: Env, rev: Revision)
    requires RowRestorable(row, db, rev)
    ensures StoreSpec(Backup.ContactFields(row, db, encode, rev), env, rev).outcome.Pass?
    ensures row.name.Some?
  {
    var f := Backup.ContactFields(row, db, encode, rev);
    var values := ReadBackPerson(row, rev).value;
    var rows := Backup.Rows(db.phones(row.id));
    PersonBack(row, db, encode, rev);
    assert PersonValues(f, rev) == Ok(values);
    if env.create(values).Some? {
      var person := env.create(values).value;
      if rev == Current {
        Backup.CollectionsPresent(Backup.PersonFields(row, Current), row.id, db, encode);
        assert GetArray(f, PhonesKey(Current)) == Ok(Backup.Entries(rows, Backup.PhoneEntry));
        PhotoStepPasses(row, db, encode, person, env.decode);
        PhonesBack(f, env, values, person, rows, PhotoSteps(f, person, env.decode).ops);
      } else if rows == [] {
        Backup.LegacyCollectionsPresent(Backup.PersonFields(row, Legacy), row.id, db, encode);
        assert GetArray(f, PhonesKey(Legacy)) == Ok(Backup.SharedEntries(rows));
        StoreReadable(f, env, Legacy, values, person, Backup.SharedEntries(rows), []);
      } else {
        LegacyRecordBack(row, db, encode, env, person);
      }
    }
  }

  /** Every people row is restorable: then every record that renders stores cleanly. */
  lemma RestorableRowsStoreCleanly(db: Backup.Contacts, encode: Bytes -> string, render: Backup.Render, rev: Revision, env: Env)
    requires forall i :: 0 <= i < |db.people| ==> RowRestorable(db.people[i], db, rev)
    ensures StoresCleanly(db, encode, render, rev, env)
  {
    forall i | 0 <= i < |db.people| && Backup.Records(db, encode, render, rev)[i].Some?
      ensures StoreSpec(Backup.ContactFields(db.people[i], db, encode, rev), env, rev).outcome.Pass? && db.people[i].name.Some?
    {
      RowStoresCleanly(db.people[i], db, encode, env, rev);
    }
  }

  /** The store calls of every people row's record, rendered or not. */
  function RecordStores(db: Backup.Contacts, encode: Bytes -> string, rev: Revision, env: Env): (stored: seq<seq<StoreOp>>)
    ensures |stored| == |db.people|
  {
    seq(|db.people|, i requires 0 <= i < |db.people| => StoreSpec(Backup.ContactFields(db.people[i], db, encode, rev), env, rev).ops)
  }

  /** The store calls of the first k records that rendered, in order. */
  function Gathered(texts: seq<Option<string>>, stored: seq<seq<StoreOp>>, k: nat): seq<StoreOp>
    requires k <= |texts| && k <= |stored|
    decreases k
  {
    if k == 0 then []
    else Gathered(texts, stored, k - 1) + (if texts[k - 1].Some? then stored[k - 1] else [])
  }

  /** Handling each rendered text performs the store calls listed beside it. */
  ghost predicate HandledAs(texts: seq<Option<string>>, stored: seq<seq<StoreOp>>, handle: Handler)
  {
    |texts| == |stored| && forall i :: 0 <= i < |texts| && texts[i].Some? ==> handle(texts[i].value).ops == stored[i]
  }

  lemma {:induction false} StoredAllGathered(texts: seq<Option<string>>, stored: seq<seq<StoreOp>>, handle: Handler, k: nat)
    requires k <= |texts| && HandledAs(texts, stored, handle)
    ensures StoredAll(Backup.Successful(texts[..k]), handle) == Gathered(texts, stored, k)
    decreases k
  {
    if k > 0 {
      StoredAllGathered(texts, stored, handle, k - 1);
      var before := Backup.Successful(texts[..k - 1]);
      assert texts[..k][..k - 1] == texts[..k - 1];
      if texts[k - 1].Some? {
        var t := texts[k - 1].value;
        assert Backup.Successful(texts[..k]) == before + [t];
        assert (before + [t])[..|before + [t]| - 1] == before;
      } else {
        assert Backup.Successful(texts[..k]) == before + [];
        assert before + [] == before;
      }
    }
  }

  lemma RecordsHandled(db: Backup.Contacts, encode: Bytes -> string, render: Backup.Render, rev: Revision, env: Env)
    requires ParsesBack(db, encode, render, rev, env)
    ensures HandledAs(Backup.Records(db, encode, render, rev), RecordStores(db, encode, rev, env), Handle(env, rev))
  {
  }

  lemma RenderedRestorable(db: Backup.Contacts, encode: Bytes -> string, render: Backup.Render, rev: Revision, env: Env, i: nat)
    requires i < |db.people| && Backup.Records(db, encode, render, rev)[i].Some?
    requires ParsesBack(db, encode, render, rev, env) && StoresCleanly(db, encode, render, rev, env)
    ensures Accepted(Handle(env, rev), Backup.Records(db, encode, render, rev)[i].value)
  {
    Backup.ContactShape(db.people[i], db, encode, rev);
  }

  /**
   * Restoring a dump of balanced objects, each accepted by the handler:
   * the restore performs the store calls of the rendered records in
   * order, reports each by name once and posts no error message.
   */
  lemma RestoreOfDump(texts: seq<Option<string>>, stored: seq<seq<StoreOp>>, total: int, handle: Handler, rev: Revision)
    requires ObjectTexts(texts) && HandledAs(texts, stored, handle)
    requires forall i :: 0 <= i < |texts| && texts[i].Some? ==> Accepted(handle, texts[i].value)
    ensures RestoreWith(Backup.Dump(texts), total, handle, rev).ops == Gathered(texts, stored, |texts|)
    ensures NamedCount(RestoreWith(Backup.Dump(texts), total, handle, rev).events) == |Backup.Successful(texts)|
    ensures ErrorCount(RestoreWith(Backup.Dump(texts), total, handle, rev).events) == 0
  {
    var file := Backup.Dump(texts);
    DumpSplits(texts);
    forall t | t in TopSpans(file)
      ensures Accepted(handle, t)
    {
      SuccessfulFrom(texts, t);
    }
    RestoredRecords(file, total, handle, rev);
    StoredAllGathered(texts, stored, handle, |texts|);
    assert texts[..|texts|] == texts;
  }

  /**
   * Backing up and then restoring the file: if every rendered record is a
   * balanced object that parses back to its fields, and every people row is
   * restorable, the restore performs the store calls of exactly those
   * records, in order, reports each by name once and posts no error
   * message.
   */
  lemma BackupThenRestore(db: Backup.Contacts, encode: Bytes -> string, render: Backup.Render, rev: Revision, env: Env, total: int)
    requires ObjectTexts(Backup.Records(db, encode, render, rev))
    requires ParsesBack(db, encode, render, rev, env)
    requires forall i :: 0 <= i < |db.people| ==> RowRestorable(db.people[i], db, rev)
    ensures var file := Backup.BackupText(db, encode, render, rev);
      && RestoreWith(file, total, Handle(env, rev), rev).ops
           == Gathered(Backup.Records(db, encode, render, rev), RecordStores(db, encode, rev, env), |db.people|)
      && NamedCount(RestoreWith(file, total, Handle(env, rev), rev).events) == |Backup.Successful(Backup.Records(db, encode, render, rev))|
      && ErrorCount(RestoreWith(file, total, Handle(env, rev), rev).events) == 0
  {
    var texts := Backup.Records(db, encode, render, rev);
    RestorableRowsStoreCleanly(db, encode, render, rev, env);
    forall i | 0 <= i < |texts| && texts[i].Some?
      ensures Accepted(Handle(env, rev), texts[i].value)
    {
      RenderedRestorable(db, encode, render, rev, env, i);
    }
    RecordsHandled(db, encode, render, rev, env);
    RestoreOfDump(texts, RecordStores(db, encode, rev, env), total, Handle(env, rev), rev);
  }
}
