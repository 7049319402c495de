/**
 * Restoring one parsed record into the contacts store: create the person,
 * then insert its phone numbers, then set its photo. The store is an
 * operation log; the person the store creates (or refuses to create) is
 * decided by the `create` parameter, and Base64 decoding by `decode`.
 */
module StoreContact {
  import opened Wrappers
  import opened Json
  import ContactColumns
  import opened Events

  /** The store columns the restore writes. */
  datatype Column =
    | PeopleId | PeopleName | PeopleTimesContacted | PeopleStarred
    | PhoneTypeColumn | PhoneNumberColumn | PhoneIsPrimaryColumn

  datatype Value = Text(s: string) | Number(n: int)

  type ContentValues = map<Column, Value>

  /** The person a successful create refers to (the URI the store returns). */
  type PersonId = nat

  type Bytes = seq<bv8>

  datatype StoreOp =
    | CreatePerson(values: ContentValues)
    | InsertPhone(person: PersonId, values: ContentValues)
    | SetPhoto(person: PersonId, photo: Bytes)

  /** What lies outside the model: the JSON parser, the store's answer to a create, the Base64 decoder. */
  datatype Env = Env(
    parse: string -> Result<Fields, JsonError>,
    create: ContentValues -> Option<PersonId>,
    decode: string -> Option<Bytes>)

  /** The operations performed, and whether a JSON exception ended the call. */
  datatype Stored = Stored(ops: seq<StoreOp>, outcome: Outcome<JsonError>)

  /** The store's phone type for a mobile number, which the older revision writes for every phone. */
  const TypeMobile := 2

  /** The key under which each revision reads the phone list. */
  function PhonesKey(rev: Revision): string
  {
    if rev == Current then ContactColumns.PhoneNumbers else ContactColumns.LegacyPhoneNumbers
  }

  /** The values of the create request, read in source order; the first failing getter throws. */
  function PersonValues(contact: Fields, rev: Revision): Result<ContentValues, JsonError>
  {
    match GetString(contact, ContactColumns.Id)
    case Err(e) => Err(e)
    case Ok(id) =>
      match GetString(contact, ContactColumns.Name)
      case Err(e) => Err(e)
      case Ok(name) =>
        if rev == Legacy then Ok(map[PeopleId := Text(id), PeopleName := Text(name)])
        else
          match GetString(contact, ContactColumns.TimesContacted)
          case Err(e) => Err(e)
          case Ok(times) =>
            match GetInt(contact, ContactColumns.Starred)
            case Err(e) => Err(e)
            case Ok(starred) =>
              Ok(map[PeopleId := Text(id), PeopleName := Text(name),
                     PeopleTimesContacted := Text(times), PeopleStarred := Number(starred)])
  }

  /** The values of one phone insert (the reused values object is cleared first). */
  function PhoneValues(phone: Fields, rev: Revision): Result<ContentValues, JsonError>
  {
    if rev == Legacy then
      match GetString(phone, ContactColumns.PhoneNumber)
      case Err(e) => Err(e)
      case Ok(number) => Ok(map[PhoneTypeColumn := Number(TypeMobile), PhoneNumberColumn := Text(number)])
    else
      match GetInt(phone, ContactColumns.PhoneType)
      case Err(e) => Err(e)
      case Ok(kind) =>
        match GetString(phone, ContactColumns.PhoneNumber)
        case Err(e) => Err(e)
        case Ok(number) =>
          match GetBoolean(phone, ContactColumns.PhoneIsPrimary)
          case Err(e) => Err(e)
          case Ok(primary) =>
            Ok(map[PhoneTypeColumn := Number(kind), PhoneNumberColumn := Text(number),
                   PhoneIsPrimaryColumn := Number(if primary then 1 else 0)])
  }

  /** What reading entry i of the phone array gives: the values of its insert, or the exception it throws. */
  function PhoneRead(phones: seq<Json>, i: nat, rev: Revision): Result<ContentValues, JsonError>
    requires i < |phones|
  {
    match ObjectAt(phones, i)
    case Err(e) => Err(e)
    case Ok(phone) => PhoneValues(phone, rev)
  }

  function PhoneReads(phones: seq<Json>, rev: Revision): (results: seq<Result<ContentValues, JsonError>>)
    ensures |results| == |phones| && forall i :: 0 <= i < |phones| ==> results[i] == PhoneRead(phones, i, rev)
  {
    seq(|phones|, i requires 0 <= i < |phones| => PhoneRead(phones, i, rev))
  }

  /** The inserts for the first k read results, stopping at the first exception. */
  function Inserts(person: PersonId, results: seq<Result<ContentValues, JsonError>>, k: nat): Stored
    requires k <= |results|
    decreases k
  {
    if k == 0 then Stored([], Pass)
    else
      var before := Inserts(person, results, k - 1);
      if before.outcome.Fail? then before
      else
        match results[k - 1]
        case Err(e) => Stored(before.ops, Fail(e))
        case Ok(values) => Stored(before.ops + [InsertPhone(person, values)], Pass)
  }

  /** The inserts for the first k entries of the phone array, stopping at the first exception. */
  function PhoneInserts(person: PersonId, phones: seq<Json>, k: nat, rev: Revision): Stored
    requires k <= |phones|
  {
    Inserts(person, PhoneReads(phones, rev), k)
  }

  /** The photo step: only element 0 of the array is looked at, and only a non-empty one is decoded. */
  function PhotoSteps(contact: Fields, person: PersonId, decode: string -> Option<Bytes>): Stored
  {
    match GetArray(contact, ContactColumns.Photos)
    case Err(e) => Stored([], Fail(e))
    case Ok(photos) =>
      if |photos| == 0 then Stored([], Pass)
      else
        match StringAt(photos, 0)
        case Err(e) => Stored([], Fail(e))
        case Ok(photo) =>
          if photo == "" then Stored([], Pass)
          else
            match decode(photo)
            case None => Stored([], Pass)   // the decoder's I/O exception is caught and ignored
            case Some(bytes) => Stored([SetPhoto(person, bytes)], Pass)
  }

  /** The whole of one store call. */
  function StoreSpec(contact: Fields, env: Env, rev: Revision): Stored
  {
    match PersonValues(contact, rev)
    case Err(e) => Stored([], Fail(e))
    case Ok(values) =>
      var created := [CreatePerson(values)];
      match env.create(values)
      case None => Stored(created, Pass)
      case Some(person) =>
        match GetArray(contact, PhonesKey(rev))
        case Err(e) => Stored(created, Fail(e))
        case Ok(phones) =>
          var inserted := PhoneInserts(person, phones, |phones|, rev);
          if inserted.outcome.Fail? || rev == Legacy then Stored(created + inserted.ops, inserted.outcome)
          else
            var photo := PhotoSteps(contact, person, env.decode);
            Stored(created + inserted.ops + photo.ops, photo.outcome)
  }

  /** One store call, with the loop over the phone array. */
  method Store(contact: Fields, env: Env, rev: Revision) returns (ops: seq<StoreOp>, outcome: Outcome<JsonError>)
    ensures Stored(ops, outcome) == StoreSpec(contact, env, rev)
  {
    var values := PersonValues(contact, rev);
    if values.Err? {
      return [], Fail(values.error);
    }
    ops := [CreatePerson(values.value)];
    var uri := env.create(values.value);
    if uri.None? {
      return ops, Pass;
    }
    var person := uri.value;
    var phones := GetArray(contact, PhonesKey(rev));
    if phones.Err? {
      return ops, Fail(phones.error);
    }
    var inserted, insertOutcome := InsertPhones(person, phones.value, rev);
    ops := ops + inserted;
    if insertOutcome.Fail? || rev == Legacy {
      return ops, insertOutcome;
    }
    var photo := PhotoSteps(contact, person, env.decode);
    ops := ops + photo.ops;
    outcome := photo.outcome;
  }

  /** The loop over the phone array: one insert per entry, until the first entry that throws. */
  method InsertPhones(person: PersonId, phones: seq<Json>, rev: Revision) returns (ops: seq<StoreOp>, outcome: Outcome<JsonError>)
    ensures Stored(ops, outcome) == PhoneInserts(person, phones, |phones|, rev)
  {
    ghost var results := PhoneReads(phones, rev);
    ops := [];
    var i := 0;
    while i < |phones|
      invariant 0 <= i <= |phones|
      invariant Inserts(person, results, i) == Stored(ops, Pass)
    {
      var phone := ObjectAt(phones, i);
      if phone.Err? {
        assert results[i] == Err(phone.error);
        ThrowStep(person, results, i + 1, phone.error);
        FailureStays(person, results, i + 1, |phones|);
        return ops, Fail(phone.error);
      }
      var phoneValues := PhoneValues(phone.value, rev);
      if phoneValues.Err? {
        assert results[i] == Err(phoneValues.error);
        ThrowStep(person, results, i + 1, phoneValues.error);
        FailureStays(person, results, i + 1, |phones|);
        return ops, Fail(phoneValues.error);
      }
      assert results[i] == Ok(phoneValues.value);
      InsertStep(person, results, i + 1);
      ops := ops + [InsertPhone(person, phoneValues.value)];
      i := i + 1;
    }
    return ops, Pass;
  }

  /** After an exception no further read result is looked at. */
  lemma {:induction false} FailureStays(person: PersonId, results: seq<Result<ContentValues, JsonError>>, i: nat, k: nat)
    requires i <= k <= |results| && Inserts(person, results, i).outcome.Fail?
    ensures Inserts(person, results, k) == Inserts(person, results, i)
    decreases k - i
  {
    if i < k {
      FailureStays(person, results, i, k - 1);
    }
  }

  /** A read that throws after a run of inserts without an exception ends the inserts with that exception. */
  lemma ThrowStep(person: PersonId, results: seq<Result<ContentValues, JsonError>>, k: nat, e: JsonError)
    requires 0 < k <= |results| && Inserts(person, results, k - 1).outcome == Pass && results[k - 1] == Err(e)
    ensures Inserts(person, results, k) == Stored(Inserts(person, results, k - 1).ops, Fail(e))
  {
  }

  /** A readable entry after a run of inserts without an exception: one more insert, with its values. */
  lemma InsertStep(person: PersonId, results: seq<Result<ContentValues, JsonError>>, k: nat)
    requires 0 < k <= |results| && Inserts(person, results, k - 1).outcome == Pass && results[k - 1].Ok?
    ensures Inserts(person, results, k) == Stored(Inserts(person, results, k - 1).ops + [InsertPhone(person, results[k - 1].value)], Pass)
  {
  }

  // ---------------------------------------------------------------------
  // What one store call does.

  /** A refused create ends the call: nothing is inserted for that person. */
  lemma RefusedCreateStoresNothingElse(contact: Fields, env: Env, rev: Revision)
    requires PersonValues(contact, rev).Ok? && env.create(PersonValues(contact, rev).value).None?
    ensures StoreSpec(contact, env, rev) == Stored([CreatePerson(PersonValues(contact, rev).value)], Pass)
  {
  }

  /** A record whose create request cannot be read throws before any store operation. */
  lemma UnreadableRecordStoresNothing(contact: Fields, env: Env, rev: Revision)
    requires PersonValues(contact, rev).Err?
    ensures StoreSpec(contact, env, rev) == Stored([], Fail(PersonValues(contact, rev).error))
  {
  }

  /** The phone entries can all be read as inserts. */
  ghost predicate ReadablePhones(phones: seq<Json>, rev: Revision)
  {
    forall i :: 0 <= i < |phones| ==> phones[i].JObj? && PhoneValues(phones[i].fields, rev).Ok?
  }

  /** With readable entries: one insert per entry, in array order, with that entry's values. */
  lemma OneInsertPerPhone(person: PersonId, phones: seq<Json>, k: nat, rev: Revision)
    requires k <= |phones| && ReadablePhones(phones, rev)
    ensures PhoneInserts(person, phones, k, rev).outcome == Pass
    ensures |PhoneInserts(person, phones, k, rev).ops| == k
    ensures forall i :: 0 <= i < k ==>
      PhoneInserts(person, phones, k, rev).ops[i] == InsertPhone(person, PhoneValues(phones[i].fields, rev).value)
  {
    var results := PhoneReads(phones, rev);
    forall i | 0 <= i < |phones|
      ensures results[i] == Ok(PhoneValues(phones[i].fields, rev).value)
    {
      assert results[i] == PhoneRead(phones, i, rev);
    }
    OneInsertPerRead(person, results, k);
  }

  lemma {:induction false} OneInsertPerRead(person: PersonId, results: seq<Result<ContentValues, JsonError>>, k: nat)
    requires k <= |results| && forall i :: 0 <= i < |results| ==> results[i].Ok?
    ensures Inserts(person, results, k).outcome == Pass
    ensures |Inserts(person, results, k).ops| == k
    ensures forall i :: 0 <= i < k ==> Inserts(person, results, k).ops[i] == InsertPhone(person, results[i].value)
    decreases k
  {
    if k > 0 {
      OneInsertPerRead(person, results, k - 1);
      InsertStep(person, results, k);
    }
  }

  /** An unreadable entry stops the loop: the inserts before it stay, none after it happen. */
  lemma UnreadablePhoneStops(person: PersonId, phones: seq<Json>, j: nat, rev: Revision)
    requires j < |phones| && ReadablePhones(phones[..j], rev)
    requires !(phones[j].JObj? && PhoneValues(phones[j].fields, rev).Ok?)
    ensures PhoneInserts(person, phones, |phones|, rev).outcome.Fail?
    ensures |PhoneInserts(person, phones, |phones|, rev).ops| == j
  {
    var results := PhoneReads(phones, rev);
    forall i | 0 <= i <= j
      ensures results[i].Ok? <==> i < j
    {
      assert results[i] == PhoneRead(phones, i, rev);
      if i < j {
        assert phones[..j][i] == phones[i];
      }
    }
    UnreadableReadStops(person, results, j);
  }

  lemma {:induction false} UnreadableReadStops(person: PersonId, results: seq<Result<ContentValues, JsonError>>, j: nat)
    requires j < |results| && results[j].Err? && forall i :: 0 <= i < j ==> results[i].Ok?
    ensures Inserts(person, results, |results|).outcome.Fail?
    ensures |Inserts(person, results, |results|).ops| == j
  {
    OkPrefix(person, results, j);
    ThrowStep(person, results, j + 1, results[j].error);
    FailureStays(person, results, j + 1, |results|);
  }

  lemma {:induction false} OkPrefix(person: PersonId, results: seq<Result<ContentValues, JsonError>>, k: nat)
    requires k <= |results| && forall i :: 0 <= i < k ==> results[i].Ok?
    ensures Inserts(person, results, k).outcome == Pass && |Inserts(person, results, k).ops| == k
    decreases k
  {
    if k > 0 {
      OkPrefix(person, results, k - 1);
      InsertStep(person, results, k);
    }
  }

  /** The stored primary flag is 1 for true and 0 for false. */
  lemma PrimaryFlagStored(phone: Fields, primary: bool)
    requires PhoneValues(phone, Current).Ok? && GetBoolean(phone, ContactColumns.PhoneIsPrimary) == Ok(primary)
    ensures PhoneValues(phone, Current).value[PhoneIsPrimaryColumn] == Number(if primary then 1 else 0)
  {
  }

  /** The older revision stores every phone as a mobile number, whatever the dump says, and no primary flag. */
  lemma LegacyPhonesAreMobile(phone: Fields)
    requires PhoneValues(phone, Legacy).Ok?
    ensures PhoneValues(phone, Legacy).value[PhoneTypeColumn] == Number(TypeMobile)
    ensures PhoneIsPrimaryColumn !in PhoneValues(phone, Legacy).value
  {
  }

  /** At most one photo is set, decoded from element 0, and only when that element is non-empty. */
  lemma AtMostOnePhoto(contact: Fields, person: PersonId, decode: string -> Option<Bytes>)
    ensures |PhotoSteps(contact, person, decode).ops| <= 1
    ensures PhotoSteps(contact, person, decode).ops != [] ==>
      exists photos :: GetArray(contact, ContactColumns.Photos) == Ok(photos) && |photos| > 0
        && StringAt(photos, 0).Ok? && StringAt(photos, 0).value != ""
        && PhotoSteps(contact, person, decode).ops == [SetPhoto(person, decode(StringAt(photos, 0).value).value)]
  {
  }

  /** Every operation of a store call after the create refers to the person the create returned. */
  lemma OpsReferToCreatedPerson(contact: Fields, env: Env, rev: Revision)
    requires PersonValues(contact, rev).Ok?
    ensures var ops := StoreSpec(contact, env, rev).ops;
      |ops| >= 1 && ops[0] == CreatePerson(PersonValues(contact, rev).value)
      && forall i :: 1 <= i < |ops| ==> !ops[i].CreatePerson? && ops[i].person == env.create(PersonValues(contact, rev).value).value
  {
    var values := PersonValues(contact, rev).value;
    var ops := StoreSpec(contact, env, rev).ops;
    match env.create(values)
    case None =>
    case Some(person) =>
      match GetArray(contact, PhonesKey(rev))
      case Err(_) =>
      case Ok(phones) =>
        var inserted := PhoneInserts(person, phones, |phones|, rev);
        InsertsReferTo(person, phones, |phones|, rev);
        var photo: seq<StoreOp> := if inserted.outcome.Fail? || rev == Legacy then [] else PhotoSteps(contact, person, env.decode).ops;
        PhotoRefersTo(contact, person, env.decode);
        assert ops == [CreatePerson(values)] + inserted.ops + photo;
        forall i | 1 <= i < |ops|
          ensures !ops[i].CreatePerson? && ops[i].person == person
        {
          if i - 1 < |inserted.ops| {
            assert ops[i] == inserted.ops[i - 1] && ops[i] in inserted.ops;
          } else {
            assert ops[i] == photo[i - 1 - |inserted.ops|] && ops[i] in photo;
          }
        }
  }

  lemma PhotoRefersTo(contact: Fields, person: PersonId, decode: string -> Option<Bytes>)
    ensures forall op :: op in PhotoSteps(contact, person, decode).ops ==> op.SetPhoto? && op.person == person
  {
  }

  /** Every operation of the phone loop is a phone insert for the created person. */
  lemma InsertsReferTo(person: PersonId, phones: seq<Json>, k: nat, rev: Revision)
    requires k <= |phones|
    ensures forall op :: op in PhoneInserts(person, phones, k, rev).ops ==> op.InsertPhone? && op.person == person
  {
    ReadsReferTo(person, PhoneReads(phones, rev), k);
  }

  lemma {:induction false} ReadsReferTo(person: PersonId, results: seq<Result<ContentValues, JsonError>>, k: nat)
    requires k <= |results|
    ensures forall op :: op in Inserts(person, results, k).ops ==> op.InsertPhone? && op.person == person
    decreases k
  {
    if k > 0 {
      ReadsReferTo(person, results, k - 1);
    }
  }
}
