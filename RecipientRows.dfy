/**
 One row of the `recipient` table, and the pure reads and writes the store
 performs on a single row: the identity keys, the contact columns, the
 profile columns, the profile key, the credential and the storage id.
 */
module RecipientRows {
  import opened Wrappers
  import opened Addresses

  /** The `_id` primary key. */
  type RecipientId = nat
  /** A storage id as held in the `storage_id` column. */
  type RawStorageId = nat
  type Bytes = seq<bv8>
  type ProfileKey = Bytes
  type ProfileKeyCredential = Bytes
  /** A `Profile.Capability` constant, identified by its ordinal. */
  type Capability = nat

  datatype UnidentifiedAccessMode = Unknown | Disabled | Enabled | Unrestricted

  /** The contact record the store hands out and accepts. */
  datatype Contact = Contact(
    givenName: Option<string>,
    familyName: Option<string>,
    nickName: Option<string>,
    color: Option<string>,
    messageExpirationTime: int,
    muteUntil: int,
    hideStory: bool,
    blocked: bool,
    archived: bool,
    profileSharingEnabled: bool,
    hidden: bool,
    unregisteredTimestamp: Option<int>)

  /** The profile record the store hands out and accepts. */
  datatype Profile = Profile(
    lastUpdateTimestamp: int,
    givenName: Option<string>,
    familyName: Option<string>,
    about: Option<string>,
    aboutEmoji: Option<string>,
    avatarUrlPath: Option<string>,
    mobileCoinAddress: Option<Bytes>,
    unidentifiedAccessMode: UnidentifiedAccessMode,
    capabilities: set<Capability>)

  /** The contact columns of a row (the unregistered timestamp is a column of
      its own, written together with them). */
  datatype ContactColumns = ContactColumns(
    givenName: Option<string>,
    familyName: Option<string>,
    nickName: Option<string>,
    color: Option<string>,
    expirationTime: int,
    muteUntil: int,
    hideStory: bool,
    profileSharing: bool,
    blocked: bool,
    archived: bool,
    hidden: bool)

  /** The profile columns of a row; the access mode and the capabilities are
      stored by name and absent when never written. */
  datatype ProfileColumns = ProfileColumns(
    lastUpdateTimestamp: int,
    givenName: Option<string>,
    familyName: Option<string>,
    about: Option<string>,
    aboutEmoji: Option<string>,
    avatarUrlPath: Option<string>,
    mobileCoinAddress: Option<Bytes>,
    unidentifiedAccessMode: Option<UnidentifiedAccessMode>,
    capabilities: Option<set<Capability>>)

  datatype Row = Row(
    aci: Option<Uuid>,
    pni: Option<Uuid>,
    number: Option<string>,
    username: Option<string>,
    storageId: Option<RawStorageId>,
    storageRecord: Option<Bytes>,
    unregisteredTimestamp: Option<int>,
    profileKey: Option<ProfileKey>,
    profileKeyCredential: Option<ProfileKeyCredential>,
    contact: ContactColumns,
    profile: ProfileColumns)

  /** The column defaults of the schema. */
  const EmptyContactColumns := ContactColumns(None, None, None, None, 0, 0, false, false, false, false, false)
  const EmptyProfileColumns := ProfileColumns(0, None, None, None, None, None, None, None, None)

  // ---------------------------------------------------------------------------
  // Identity keys

  function AddressOf(r: Row): RecipientAddress {
    RecipientAddress(r.aci, r.pni, r.number, r.username)
  }

  /** `INSERT INTO recipient (number, aci, pni, username)`: every other column
      takes its default. */
  function NewRow(a: RecipientAddress): (r: Row)
    ensures AddressOf(r) == a
    ensures r.storageId.None? && r.storageRecord.None? && r.unregisteredTimestamp.None?
    ensures r.profileKey.None? && r.profileKeyCredential.None?
    ensures ContactOf(r).None? && ProfileOf(r).None?
  {
    Row(a.aci, a.pni, a.number, a.username, None, None, None, None, None, EmptyContactColumns, EmptyProfileColumns)
  }

  /** `SET number = ?, aci = ?, pni = ?, username = ?`. */
  function WithAddress(r: Row, a: RecipientAddress): Row {
    r.(aci := a.aci, pni := a.pni, number := a.number, username := a.username)
  }

  /** Setting an address and then the old one back gives the row back: only
      the four key columns are written. */
  lemma WithAddressOnlyKeys(r: Row, a: RecipientAddress)
    ensures AddressOf(WithAddress(r, a)) == a
    ensures WithAddress(WithAddress(r, a), AddressOf(r)) == r
  {
  }

  /** Whether two rows hold the same value in one of the UNIQUE columns
      (`storage_id`, `number`, `username`, `aci`, `pni`; NULLs never clash). */
  predicate SharesKey(a: Row, b: Row) {
    || (a.aci.Some? && a.aci == b.aci)
    || (a.pni.Some? && a.pni == b.pni)
    || (a.number.Some? && a.number == b.number)
    || (a.username.Some? && a.username == b.username)
    || (a.storageId.Some? && a.storageId == b.storageId)
  }

  /** Whether a row holding address `a` would clash with row `b`. */
  predicate AddressClashes(a: RecipientAddress, b: Row) {
    || (a.aci.Some? && a.aci == b.aci)
    || (a.pni.Some? && a.pni == b.pni)
    || (a.number.Some? && a.number == b.number)
    || (a.username.Some? && a.username == b.username)
  }

  /** Every key `r` holds is one `s` holds too. */
  predicate KeysWithin(r: Row, s: Row) {
    && (r.aci.Some? ==> r.aci == s.aci)
    && (r.pni.Some? ==> r.pni == s.pni)
    && (r.number.Some? ==> r.number == s.number)
    && (r.username.Some? ==> r.username == s.username)
    && (r.storageId.Some? ==> r.storageId == s.storageId)
  }

  /** The row holds the service id in its `aci` or `pni` column. */
  predicate HoldsServiceId(r: Row, s: ServiceId) {
    match s
    case Aci(u) => r.aci == Some(u)
    case Pni(u) => r.pni == Some(u)
  }

  // ---------------------------------------------------------------------------
  // Contact columns

  /** The `SQL_IS_CONTACT` condition: a row counts as a contact when it has a
      name, a message expiration, profile sharing, a color, or is blocked or
      archived. */
  predicate IsContactColumns(c: ContactColumns) {
    || c.givenName.Some? || c.familyName.Some? || c.nickName.Some?
    || c.expirationTime > 0 || c.profileSharing || c.color.Some?
    || c.blocked || c.archived
  }

  /** The same condition on a contact record. */
  predicate IsContactData(c: Contact) {
    || c.givenName.Some? || c.familyName.Some? || c.nickName.Some?
    || c.messageExpirationTime > 0 || c.profileSharingEnabled || c.color.Some?
    || c.blocked || c.archived
  }

  /** A timestamp column read with `getLong`: NULL reads as 0, and 0 is handed
      out as absent. */
  function ReadTimestamp(t: Option<int>): (r: Option<int>)
    ensures r.None? <==> t.None? || t == Some(0)
    ensures r.Some? ==> r == t
  {
    if t == Some(0) then None else t
  }

  /** `getContact`: present only when the row meets the contact condition. */
  function ContactOf(r: Row): Option<Contact> {
    if IsContactColumns(r.contact) then
      Some(Contact(
        r.contact.givenName, r.contact.familyName, r.contact.nickName, r.contact.color,
        r.contact.expirationTime, r.contact.muteUntil, r.contact.hideStory,
        r.contact.blocked, r.contact.archived, r.contact.profileSharing,
        r.contact.hidden, ReadTimestamp(r.unregisteredTimestamp)))
    else None
  }

  /** The UPDATE of `storeContact`: every contact column except `hidden`,
      plus the unregistered timestamp; a missing contact writes the defaults. */
  function WriteContact(r: Row, c: Option<Contact>): Row {
    match c
    case None =>
      r.(contact := EmptyContactColumns.(hidden := r.contact.hidden), unregisteredTimestamp := None)
    case Some(c) =>
      r.(contact := ContactColumns(
           c.givenName, c.familyName, c.nickName, c.color,
           c.messageExpirationTime, c.muteUntil, c.hideStory,
           c.profileSharingEnabled, c.blocked, c.archived, r.contact.hidden),
         unregisteredTimestamp := c.unregisteredTimestamp)
  }

  /** Reading back a written contact gives it back, except that `hidden` keeps
      the row's value and a zero timestamp reads as absent; a contact that
      does not meet the contact condition, or no contact, reads back as none. */
  lemma ContactRoundTrip(r: Row, c: Option<Contact>)
    ensures ContactOf(WriteContact(r, c)) ==
      if c.Some? && IsContactData(c.value) then
        Some(c.value.(hidden := r.contact.hidden, unregisteredTimestamp := ReadTimestamp(c.value.unregisteredTimestamp)))
      else None
  {
  }

  /** A contact read from a row and written back leaves the row as it was,
      apart from a zero timestamp becoming NULL. */
  lemma ContactRewriteStable(r: Row)
    requires ContactOf(r).Some?
    requires r.unregisteredTimestamp != Some(0)
    ensures WriteContact(r, ContactOf(r)) == r
  {
  }

  /** Writing a contact touches only the contact columns and the
      unregistered timestamp. */
  lemma WriteContactFrame(r: Row, c: Option<Contact>)
    ensures var w := WriteContact(r, c);
      && AddressOf(w) == AddressOf(r) && w.storageId == r.storageId && w.storageRecord == r.storageRecord
      && w.profileKey == r.profileKey && w.profileKeyCredential == r.profileKeyCredential
      && w.profile == r.profile && w.contact.hidden == r.contact.hidden
  {
  }

  // ---------------------------------------------------------------------------
  // Profile columns

  /** `getProfile`: present exactly when the capabilities column is set; an
      absent access mode reads as UNKNOWN. */
  function ProfileOf(r: Row): Option<Profile> {
    match r.profile.capabilities
    case None => None
    case Some(caps) =>
      Some(Profile(
        r.profile.lastUpdateTimestamp, r.profile.givenName, r.profile.familyName,
        r.profile.about, r.profile.aboutEmoji, r.profile.avatarUrlPath,
        r.profile.mobileCoinAddress,
        match r.profile.unidentifiedAccessMode case None => Unknown case Some(m) => m,
        caps))
  }

  /** The UPDATE of `storeProfile`; a missing profile writes timestamp 0 and
      NULL everywhere else. */
  function WriteProfile(r: Row, p: Option<Profile>): Row {
    match p
    case None => r.(profile := EmptyProfileColumns)
    case Some(p) =>
      r.(profile := ProfileColumns(
           p.lastUpdateTimestamp, p.givenName, p.familyName, p.about, p.aboutEmoji,
           p.avatarUrlPath, p.mobileCoinAddress, Some(p.unidentifiedAccessMode), Some(p.capabilities)))
  }

  /** A written profile reads back exactly, a cleared one as none. */
  lemma ProfileRoundTrip(r: Row, p: Option<Profile>)
    ensures ProfileOf(WriteProfile(r, p)) == p
  {
  }

  /** Writing a profile touches only the profile columns. */
  lemma WriteProfileFrame(r: Row, p: Option<Profile>)
    ensures WriteProfile(r, p).(profile := r.profile) == r
  {
  }

  // ---------------------------------------------------------------------------
  // Profile key

  /** The guard of `storeProfileKey`: a non-null key equal to the current one
      is not written again unless the profile's access mode is UNKNOWN or
      DISABLED. */
  predicate SkipsProfileKeyWrite(key: Option<ProfileKey>, current: Option<ProfileKey>, profile: Option<Profile>) {
    && key.Some?
    && key == current
    && (profile.None? || profile.value.unidentifiedAccessMode !in {Unknown, Disabled})
  }

  /** The UPDATE of `storeProfileKey`: the key, the credential cleared, and the
      profile timestamp reset only when asked. */
  function WriteProfileKey(r: Row, key: Option<ProfileKey>, resetProfile: bool): Row {
    r.(profileKey := key,
       profileKeyCredential := None,
       profile := if resetProfile then r.profile.(lastUpdateTimestamp := 0) else r.profile)
  }

  /** The guard written out: a new or absent key is always written; when the
      key is unchanged the write happens only for an UNKNOWN or DISABLED
      profile. */
  lemma ProfileKeyGuardCases(key: Option<ProfileKey>, current: Option<ProfileKey>, profile: Option<Profile>)
    ensures key.None? || key != current ==> !SkipsProfileKeyWrite(key, current, profile)
    ensures key.Some? && key == current && profile.None? ==> SkipsProfileKeyWrite(key, current, profile)
    ensures key.Some? && key == current && profile.Some? ==>
      (SkipsProfileKeyWrite(key, current, profile) <==>
        profile.value.unidentifiedAccessMode == Enabled || profile.value.unidentifiedAccessMode == Unrestricted)
  {
  }

  /** A profile-key write keeps the profile except for its timestamp, which
      drops to 0 only on a reset, and always leaves no credential. */
  lemma WriteProfileKeyEffect(r: Row, key: Option<ProfileKey>, resetProfile: bool)
    ensures var w := WriteProfileKey(r, key, resetProfile);
      && w.profileKey == key && w.profileKeyCredential.None?
      && ProfileOf(w) == (if resetProfile && ProfileOf(r).Some? then Some(ProfileOf(r).value.(lastUpdateTimestamp := 0)) else ProfileOf(r))
      && ContactOf(w) == ContactOf(r) && AddressOf(w) == AddressOf(r) && w.storageId == r.storageId
  {
  }
}
