/**
 * The key names of the JSON dump, shared by the writer (backup) and the
 * reader (restore): eleven scalar record keys, four collection keys, and the
 * keys of the three kinds of child entry.
 */
module ContactColumns {

  // Scalar record keys.
  const Id := "id"
  const Name := "name"
  const CustomRingTone := "custom_ring_tone"
  const DisplayName := "display_name"
  const LastTimeContacted := "last_time_contacted"
  const Notes := "notes"
  const PhoneticName := "phonetic_name"
  const SendToVoicemail := "send_to_voicemail"
  const Starred := "starred"
  const TimesContacted := "times_contacted"
  const PhotoVersion := "photo_version"

  // Collection keys: each maps to an array.
  const Photos := "photos"
  const ContactMethods := "contact_methods"
  const PhoneNumbers := "phone_numbers"
  const Organizations := "organizations"

  // Keys of a contact-method entry.
  const MethodIsPrimary := "is_primary"
  const MethodLabel := "label"
  const MethodType := "type"
  const MethodAuxData := "aux_data"
  const MethodData := "data"
  const MethodKind := "kind"

  // Keys of a phone entry.
  const PhoneIsPrimary := "is_primary"
  const PhoneLabel := "label"
  const PhoneNumber := "number"
  const PhoneNumberKey := "number_key"
  const PhoneType := "type"

  // Keys of an organization entry.
  const OrgIsPrimary := "is_primary"
  const OrgLabel := "label"
  const OrgTitle := "title"
  const OrgCompany := "company"
  const OrgType := "type"

  /** The phone collection key of the older revision kept in the activity class. */
  const LegacyPhoneNumbers := "phonenumbers"

  predicate Distinct(ks: seq<string>)
  {
    forall i, j :: 0 <= i < j < |ks| ==> ks[i] != ks[j]
  }

  /** The eleven scalar keys of a record. */
  function ScalarKeys(): (ks: seq<string>)
    ensures |ks| == 11 && Distinct(ks)
    ensures Id in ks && Name in ks && Starred in ks && TimesContacted in ks
  {
    [Id, Name, CustomRingTone, DisplayName, LastTimeContacted, Notes,
     PhoneticName, SendToVoicemail, Starred, TimesContacted, PhotoVersion]
  }

  /** The four collection keys of a record. */
  function CollectionKeys(): (ks: seq<string>)
    ensures |ks| == 4 && Distinct(ks)
    ensures Photos in ks && ContactMethods in ks && PhoneNumbers in ks && Organizations in ks
  {
    [Photos, ContactMethods, PhoneNumbers, Organizations]
  }

  /** All fifteen record keys are pairwise distinct, scalar and collection keys included. */
  function RecordKeys(): (ks: seq<string>)
    ensures |ks| == 15 && Distinct(ks)
    ensures forall k :: k in ScalarKeys() || k in CollectionKeys() ==> k in ks
  {
    RecordKeysDiffer();
    ScalarKeys() + CollectionKeys()
  }

  function MethodKeys(): (ks: seq<string>)
    ensures |ks| == 6 && Distinct(ks)
    ensures ks[0] == "is_primary"
  {
    MethodKeysDiffer();
    [MethodIsPrimary, MethodLabel, MethodType, MethodAuxData, MethodData, MethodKind]
  }

  function PhoneKeys(): (ks: seq<string>)
    ensures |ks| == 5 && Distinct(ks)
    ensures ks[0] == "is_primary"
  {
    PhoneKeysDiffer();
    [PhoneIsPrimary, PhoneLabel, PhoneNumber, PhoneNumberKey, PhoneType]
  }

  function OrgKeys(): (ks: seq<string>)
    ensures |ks| == 5 && Distinct(ks)
    ensures ks[0] == "is_primary"
  {
    OrgKeysDiffer();
    [OrgIsPrimary, OrgLabel, OrgTitle, OrgCompany, OrgType]
  }

  /** The primary flag has one spelling in all three child schemas. */
  lemma IsPrimaryShared()
    ensures MethodIsPrimary == PhoneIsPrimary == OrgIsPrimary == "is_primary"
  {
  }

  /** The older revision's phone key differs from the current one, so neither reads the other's dumps. */
  lemma LegacyPhoneKeyDiffers()
    ensures LegacyPhoneNumbers != PhoneNumbers && LegacyPhoneNumbers !in RecordKeys()
  {
    RecordKeysDiffer();
  }

  /**
   * Every two record keys differ, the older phone key included, so a put
   * under one never disturbs another. The same fact as the `Distinct`
   * property of `RecordKeys`, spelled out pair by pair as ground facts for
   * the proofs about puts; `RecordKeys` is proved from it.
   */
  lemma RecordKeysDiffer()
    ensures Id != Name && Id != CustomRingTone && Id != DisplayName && Id != LastTimeContacted && Id != Notes && Id != PhoneticName && Id != SendToVoicemail && Id != Starred && Id != TimesContacted && Id != PhotoVersion && Id != Photos && Id != ContactMethods && Id != PhoneNumbers && Id != Organizations && Id != LegacyPhoneNumbers
      && Name != CustomRingTone && Name != DisplayName && Name != LastTimeContacted && Name != Notes && Name != PhoneticName && Name != SendToVoicemail && Name != Starred && Name != TimesContacted && Name != PhotoVersion && Name != Photos && Name != ContactMethods && Name != PhoneNumbers && Name != Organizations && Name != LegacyPhoneNumbers
      && CustomRingTone != DisplayName && CustomRingTone != LastTimeContacted && CustomRingTone != Notes && CustomRingTone != PhoneticName && CustomRingTone != SendToVoicemail && CustomRingTone != Starred && CustomRingTone != TimesContacted && CustomRingTone != PhotoVersion && CustomRingTone != Photos && CustomRingTone != ContactMethods && CustomRingTone != PhoneNumbers && CustomRingTone != Organizations && CustomRingTone != LegacyPhoneNumbers
      && DisplayName != LastTimeContacted && DisplayName != Notes && DisplayName != PhoneticName && DisplayName != SendToVoicemail && DisplayName != Starred && DisplayName != TimesContacted && DisplayName != PhotoVersion && DisplayName != Photos && DisplayName != ContactMethods && DisplayName != PhoneNumbers && DisplayName != Organizations && DisplayName != LegacyPhoneNumbers
      && LastTimeContacted != Notes && LastTimeContacted != PhoneticName && LastTimeContacted != SendToVoicemail && LastTimeContacted != Starred && LastTimeContacted != TimesContacted && LastTimeContacted != PhotoVersion && LastTimeContacted != Photos && LastTimeContacted != ContactMethods && LastTimeContacted != PhoneNumbers && LastTimeContacted != Organizations && LastTimeContacted != LegacyPhoneNumbers
      && Notes != PhoneticName && Notes != SendToVoicemail && Notes != Starred && Notes != TimesContacted && Notes != PhotoVersion && Notes != Photos && Notes != ContactMethods && Notes != PhoneNumbers && Notes != Organizations && Notes != LegacyPhoneNumbers
      && PhoneticName != SendToVoicemail && PhoneticName != Starred && PhoneticName != TimesContacted && PhoneticName != PhotoVersion && PhoneticName != Photos && PhoneticName != ContactMethods && PhoneticName != PhoneNumbers && PhoneticName != Organizations && PhoneticName != LegacyPhoneNumbers
      && SendToVoicemail != Starred && SendToVoicemail != TimesContacted && SendToVoicemail != PhotoVersion && SendToVoicemail != Photos && SendToVoicemail != ContactMethods && SendToVoicemail != PhoneNumbers && SendToVoicemail != Organizations && SendToVoicemail != LegacyPhoneNumbers
      && Starred != TimesContacted && Starred != PhotoVersion && Starred != Photos && Starred != ContactMethods && Starred != PhoneNumbers && Starred != Organizations && Starred != LegacyPhoneNumbers
      && TimesContacted != PhotoVersion && TimesContacted != Photos && TimesContacted != ContactMethods && TimesContacted != PhoneNumbers && TimesContacted != Organizations && TimesContacted != LegacyPhoneNumbers
      && PhotoVersion != Photos && PhotoVersion != ContactMethods && PhotoVersion != PhoneNumbers && PhotoVersion != Organizations && PhotoVersion != LegacyPhoneNumbers
      && Photos != ContactMethods && Photos != PhoneNumbers && Photos != Organizations && Photos != LegacyPhoneNumbers
      && ContactMethods != PhoneNumbers && ContactMethods != Organizations && ContactMethods != LegacyPhoneNumbers
      && PhoneNumbers != Organizations && PhoneNumbers != LegacyPhoneNumbers
      && Organizations != LegacyPhoneNumbers
  {
  }

  /**
   * Every two contact-method entry keys differ. The same fact as the
   * `Distinct` property of `MethodKeys`, spelled out pair by pair as ground facts
   * for the proofs about puts; `MethodKeys` is proved from it.
   */
  lemma MethodKeysDiffer()
    ensures MethodIsPrimary != MethodLabel && MethodIsPrimary != MethodType && MethodIsPrimary != MethodAuxData && MethodIsPrimary != MethodData && MethodIsPrimary != MethodKind
      && MethodLabel != MethodType && MethodLabel != MethodAuxData && MethodLabel != MethodData && MethodLabel != MethodKind
      && MethodType != MethodAuxData && MethodType != MethodData && MethodType != MethodKind
      && MethodAuxData != MethodData && MethodAuxData != MethodKind
      && MethodData != MethodKind
  {
  }

  /**
   * Every two phone entry keys differ. The same fact as the
   * `Distinct` property of `PhoneKeys`, spelled out pair by pair as ground facts
   * for the proofs about puts; `PhoneKeys` is proved from it.
   */
  lemma PhoneKeysDiffer()
    ensures PhoneIsPrimary != PhoneLabel && PhoneIsPrimary != PhoneNumber && PhoneIsPrimary != PhoneNumberKey && PhoneIsPrimary != PhoneType
      && PhoneLabel != PhoneNumber && PhoneLabel != PhoneNumberKey && PhoneLabel != PhoneType
      && PhoneNumber != PhoneNumberKey && PhoneNumber != PhoneType
      && PhoneNumberKey != PhoneType
  {
  }

  /**
   * Every two organization entry keys differ. The same fact as the
   * `Distinct` property of `OrgKeys`, spelled out pair by pair as ground facts
   * for the proofs about puts; `OrgKeys` is proved from it.
   */
  lemma OrgKeysDiffer()
    ensures OrgIsPrimary != OrgLabel && OrgIsPrimary != OrgTitle && OrgIsPrimary != OrgCompany && OrgIsPrimary != OrgType
      && OrgLabel != OrgTitle && OrgLabel != OrgCompany && OrgLabel != OrgType
      && OrgTitle != OrgCompany && OrgTitle != OrgType
      && OrgCompany != OrgType
  {
  }
}
