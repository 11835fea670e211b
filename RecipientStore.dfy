/**
 The recipient table as a state machine: the rows, the auto-increment id
 counter, the redirect map `recipientsMerged` and the service-id cache
 `recipientAddressCache`. Each SQL statement of the store appears as its
 effect on the row map.

 The invariant `Consistent()` collects what the schema and the code keep
 true:
 - the UNIQUE columns are held by at most one row each;
 - ids below the counter are never reused;
 - a storage id below `nextStorageId` is never handed out again;
 - every cache entry names a live row that holds the service id, with that
   row's current address;
 - the redirect map is acyclic.
 `Valid()` adds that no redirect key is a live row. This part is broken on
 purpose between the data copy of a merge and the deletion of the losers,
 and restored by that deletion.
 */
module Recipients {
  import opened Wrappers
  import opened Addresses
  import opened RecipientRows
  import opened Redirects

  /** The SQL failures the modelled statements can raise. */
  datatype StoreError =
    | UniqueConstraintViolated   // an INSERT or UPDATE would duplicate a UNIQUE column
    | RecipientNotFound          // a single-row SELECT found no row

  datatype Result<T> = Ok(value: T) | Err(error: StoreError)

  /** What a lookup returns and the cache holds. */
  datatype RecipientWithAddress = RecipientWithAddress(id: RecipientId, address: RecipientAddress)

  /** The local account as the store's providers report it: its address, its
      recipient id and the profile key of its own. */
  datatype SelfAccount = SelfAccount(address: RecipientAddress, recipientId: RecipientId, profileKey: Option<ProfileKey>)

  /** A column a lookup filters on. */
  datatype Column = AciColumn(aci: Uuid) | PniColumn(pni: Uuid) | NumberColumn(number: string)

  predicate Holds(r: Row, c: Column) {
    match c
    case AciColumn(u) => r.aci == Some(u)
    case PniColumn(u) => r.pni == Some(u)
    case NumberColumn(n) => r.number == Some(n)
  }

  /** `WHERE r.aci = ?` for an ACI, `WHERE r.pni = ?` for a PNI. */
  function ServiceColumn(s: ServiceId): (c: Column)
    ensures forall r :: Holds(r, c) <==> HoldsServiceId(r, s)
  {
    match s
    case Aci(u) => AciColumn(u)
    case Pni(u) => PniColumn(u)
  }

  // ---------------------------------------------------------------------------
  // Invariants on the table values

  ghost predicate KeysUnique(rows: map<RecipientId, Row>) {
    forall i, j {:trigger SharesKey(rows[i], rows[j])} :: i in rows && j in rows && i != j ==> !SharesKey(rows[i], rows[j])
  }

  ghost predicate StorageIdsBelow(rows: map<RecipientId, Row>, bound: nat) {
    forall i :: i in rows && rows[i].storageId.Some? ==> rows[i].storageId.value < bound
  }

  ghost predicate CacheSound(cache: map<ServiceId, RecipientWithAddress>, rows: map<RecipientId, Row>) {
    forall s :: s in cache ==>
      && cache[s].id in rows
      && cache[s].address == AddressOf(rows[cache[s].id])
      && HoldsServiceId(rows[cache[s].id], s)
  }

  /** `recipientAddressCache.entrySet().removeIf(e -> e.getValue().id().equals(id))`. */
  function Evict(cache: map<ServiceId, RecipientWithAddress>, id: RecipientId): map<ServiceId, RecipientWithAddress>
  {
    map s | s in cache && cache[s].id != id :: cache[s]
  }

  /** The row holding a column value, if any. */
  ghost function Lookup(rows: map<RecipientId, Row>, c: Column): (o: Option<RecipientId>)
    ensures o.Some? ==> o.value in rows && Holds(rows[o.value], c)
    ensures o.None? <==> forall i :: i in rows ==> !Holds(rows[i], c)
  {
    if exists i :: i in rows && Holds(rows[i], c) then
      var i :| i in rows && Holds(rows[i], c); Some(i)
    else None
  }

  ghost function Found(rows: map<RecipientId, Row>, c: Column): Option<RecipientWithAddress> {
    match Lookup(rows, c)
    case None => None
    case Some(i) => Some(RecipientWithAddress(i, AddressOf(rows[i])))
  }

  /** Under the UNIQUE constraints a column value has one holder, so a lookup
      cannot return anything else. */
  lemma LookupUnique(rows: map<RecipientId, Row>, c: Column, i: RecipientId)
    requires KeysUnique(rows)
    requires i in rows && Holds(rows[i], c)
    ensures Lookup(rows, c) == Some(i)
  {
    var j := Lookup(rows, c).value;
    if j != i {
      assert SharesKey(rows[i], rows[j]);
    }
  }

  /** The lookup order of `resolveRecipientLocked(address)`: ACI, then PNI,
      then phone number. */
  ghost function LookupByPriority(rows: map<RecipientId, Row>, a: RecipientAddress): Option<RecipientId> {
    var byAci := if a.aci.Some? then Lookup(rows, AciColumn(a.aci.value)) else None;
    var byPni := if a.pni.Some? then Lookup(rows, PniColumn(a.pni.value)) else None;
    var byNumber := if a.number.Some? then Lookup(rows, NumberColumn(a.number.value)) else None;
    if byAci.Some? then byAci else if byPni.Some? then byPni else byNumber
  }

  /** The address a missed resolution inserts: only the service id when there
      is one, otherwise the whole address. */
  function InsertedAddress(a: RecipientAddress): (r: RecipientAddress)
    ensures ServiceIdOf(a).Some? ==> HasSingleIdentifier(r) && ServiceIdOf(r) == ServiceIdOf(a)
    ensures ServiceIdOf(a).None? ==> r == a
  {
    match ServiceIdOf(a)
    case None => a
    case Some(s) => FromServiceId(s)
  }

  ghost predicate ClashesWithSome(rows: map<RecipientId, Row>, a: RecipientAddress) {
    exists i :: i in rows && AddressClashes(a, rows[i])
  }

  /** The id `resolveRecipientLocked(address)` returns on a table. */
  ghost function ResolvedId(rows: map<RecipientId, Row>, nextId: RecipientId, a: RecipientAddress): Result<RecipientId> {
    match LookupByPriority(rows, a)
    case Some(i) => Ok(i)
    case None => if ClashesWithSome(rows, InsertedAddress(a)) then Err(UniqueConstraintViolated) else Ok(nextId)
  }

  /** The table after `resolveRecipientLocked(address)`. */
  ghost function ResolvedRows(rows: map<RecipientId, Row>, nextId: RecipientId, a: RecipientAddress): map<RecipientId, Row> {
    if LookupByPriority(rows, a).None? && !ClashesWithSome(rows, InsertedAddress(a)) then
      rows[nextId := NewRow(InsertedAddress(a))]
    else rows
  }

  // ---------------------------------------------------------------------------
  // Properties of resolution

  /** A row holding the address's ACI wins, whatever holds its PNI or number. */
  lemma AciWins(rows: map<RecipientId, Row>, nextId: RecipientId, a: RecipientAddress, i: RecipientId)
    requires KeysUnique(rows)
    requires i in rows && a.aci.Some? && rows[i].aci == a.aci
    ensures ResolvedId(rows, nextId, a) == Ok(i) && ResolvedRows(rows, nextId, a) == rows
  {
    LookupUnique(rows, AciColumn(a.aci.value), i);
  }

  /** Without an ACI holder, a row holding the PNI wins over a number holder. */
  lemma PniBeforeNumber(rows: map<RecipientId, Row>, nextId: RecipientId, a: RecipientAddress, i: RecipientId)
    requires KeysUnique(rows)
    requires a.aci.None? || forall j :: j in rows ==> rows[j].aci != a.aci
    requires i in rows && a.pni.Some? && rows[i].pni == a.pni
    ensures ResolvedId(rows, nextId, a) == Ok(i) && ResolvedRows(rows, nextId, a) == rows
  {
    LookupUnique(rows, PniColumn(a.pni.value), i);
    if a.aci.Some? {
      assert Lookup(rows, AciColumn(a.aci.value)).None?;
    }
  }

  /** With neither service id held, the number holder is the answer. */
  lemma NumberLast(rows: map<RecipientId, Row>, nextId: RecipientId, a: RecipientAddress, i: RecipientId)
    requires KeysUnique(rows)
    requires a.aci.None? || forall j :: j in rows ==> rows[j].aci != a.aci
    requires a.pni.None? || forall j :: j in rows ==> rows[j].pni != a.pni
    requires i in rows && a.number.Some? && rows[i].number == a.number
    ensures ResolvedId(rows, nextId, a) == Ok(i) && ResolvedRows(rows, nextId, a) == rows
  {
    LookupUnique(rows, NumberColumn(a.number.value), i);
    if a.aci.Some? {
      assert Lookup(rows, AciColumn(a.aci.value)).None?;
    }
    if a.pni.Some? {
      assert Lookup(rows, PniColumn(a.pni.value)).None?;
    }
  }

  /** A miss inserts exactly one row under the next id. When the address has a
      service id that row holds only it, and the insert cannot fail. Without a
      service id it holds the whole address, and the insert fails only on a
      username already taken. */
  lemma MissInsertsOneRow(rows: map<RecipientId, Row>, nextId: RecipientId, a: RecipientAddress)
    requires LookupByPriority(rows, a).None?
    requires nextId !in rows
    ensures ServiceIdOf(a).Some? ==>
      && ResolvedId(rows, nextId, a) == Ok(nextId)
      && ResolvedRows(rows, nextId, a) == rows[nextId := NewRow(FromServiceId(ServiceIdOf(a).value))]
    ensures ServiceIdOf(a).None? ==>
      (ResolvedId(rows, nextId, a).Err? <==> a.username.Some? && exists i :: i in rows && rows[i].username == a.username)
    ensures ResolvedId(rows, nextId, a).Ok? ==> |ResolvedRows(rows, nextId, a)| == |rows| + 1
  {
    var b := InsertedAddress(a);
    if ServiceIdOf(a).Some? {
      if a.aci.Some? {
        assert Lookup(rows, AciColumn(a.aci.value)).None?;
      } else {
        assert Lookup(rows, PniColumn(a.pni.value)).None?;
      }
      assert !ClashesWithSome(rows, b);
    } else {
      if a.number.Some? {
        assert Lookup(rows, NumberColumn(a.number.value)).None?;
      }
      if ClashesWithSome(rows, b) {
        var i :| i in rows && AddressClashes(b, rows[i]);
        assert rows[i].username == a.username;
      }
    }
  }

  // ---------------------------------------------------------------------------
  // Splitting an unregistered recipient

  /** `new RecipientAddress(pni, number)`: the part of an address that moves
      to a new row when the recipient is split. */
  function NumberAddress(a: RecipientAddress): RecipientAddress
    requires a.pni.Some?
  {
    FromPniAndNumber(a.pni.value, a.number)
  }

  /** The `markUnregistered(id)` UPDATE: a timestamp is set only where none is. */
  function Stamp(r: Row, now: int): (s: Row)
    ensures s.unregisteredTimestamp.Some?
    ensures r.unregisteredTimestamp.Some? ==> s == r
  {
    if r.unregisteredTimestamp.None? then r.(unregisteredTimestamp := Some(now)) else r
  }

  predicate NeedsSplit(r: Row) {
    r.aci.Some? && r.pni.Some?
  }

  /** The address the original row keeps after a split: its ACI and username. */
  function KeptAddress(r: Row): RecipientAddress
    requires r.pni.Some?
  {
    RemoveIdentifiersFrom(AddressOf(r), NumberAddress(AddressOf(r)))
  }

  /** The split separates the identities: the original row keeps its ACI and
      username and gives up its PNI and number, which a row of their own then
      holds without clashing with anyone. */
  lemma SplitSeparatesIdentities(rows: map<RecipientId, Row>, id: RecipientId, nid: RecipientId, sid: RawStorageId)
    requires KeysUnique(rows) && id in rows && nid !in rows
    requires NeedsSplit(rows[id])
    requires forall i :: i in rows && rows[i].storageId.Some? ==> rows[i].storageId.value < sid
    ensures var r := rows[id];
      var kept := KeptAddress(r);
      && kept == RecipientAddress(r.aci, None, None, r.username)
      && KeysUnique(rows[id := WithAddress(r, kept).(storageId := Some(sid))])
      && !ClashesWithSome(rows[id := WithAddress(r, kept).(storageId := Some(sid))], NumberAddress(AddressOf(r)))
      && KeysUnique(rows[id := WithAddress(r, kept).(storageId := Some(sid))][nid := NewRow(NumberAddress(AddressOf(r)))])
  {
    var r := rows[id];
    var r' := WithAddress(r, KeptAddress(r)).(storageId := Some(sid));
    var rows1 := rows[id := r'];
    assert KeysUnique(rows1) by {
      forall i, j | i in rows1 && j in rows1 && i != j ensures !SharesKey(rows1[i], rows1[j]) {
        if i == id {
          assert !SharesKey(r, rows[j]);
        } else if j == id {
          assert !SharesKey(rows[i], r);
        }
      }
    }
    var na := NumberAddress(AddressOf(r));
    forall i | i in rows1 ensures !AddressClashes(na, rows1[i]) {
      if i != id {
        assert !SharesKey(r, rows[i]);
      }
    }
    var rows2 := rows1[nid := NewRow(na)];
    forall i, j | i in rows2 && j in rows2 && i != j ensures !SharesKey(rows2[i], rows2[j]) {
      if i == nid {
        assert !AddressClashes(na, rows1[j]);
      } else if j == nid {
        assert !AddressClashes(na, rows1[i]);
      }
    }
  }

  /** The table after a split of row `id`: it keeps its ACI and username under
      storage id `sid`, and a new row `nid` takes its PNI and number. */
  function SplitRows(rows: map<RecipientId, Row>, id: RecipientId, nid: RecipientId, sid: RawStorageId): (r: map<RecipientId, Row>)
    requires id in rows && rows[id].pni.Some?
    ensures r.Keys == rows.Keys + {nid}
  {
    var row := rows[id];
    rows[id := WithAddress(row, KeptAddress(row)).(storageId := Some(sid))][nid := NewRow(NumberAddress(AddressOf(row)))]
  }

  /** What a split does to the two rows, and that it leaves the others alone. */
  lemma SplitRowsEffect(rows: map<RecipientId, Row>, id: RecipientId, nid: RecipientId, sid: RawStorageId)
    requires id in rows && nid !in rows && NeedsSplit(rows[id])
    ensures var r := SplitRows(rows, id, nid, sid);
      && AddressOf(r[id]) == RecipientAddress(rows[id].aci, None, None, rows[id].username)
      && AddressOf(r[nid]) == RecipientAddress(None, rows[id].pni, rows[id].number, None)
      && r[id].unregisteredTimestamp == rows[id].unregisteredTimestamp
      && ContactOf(r[id]) == ContactOf(rows[id]) && ProfileOf(r[id]) == ProfileOf(rows[id])
      && r[nid].unregisteredTimestamp.None? && r[nid].storageId.None?
      && (forall j :: j in rows && j != id ==> r[j] == rows[j])
  {
    WithAddressOnlyKeys(rows[id], KeptAddress(rows[id]));
  }

  /** Rotating the storage id of a split row is the same as splitting it
      under the new id. */
  lemma SplitRestamp(rows: map<RecipientId, Row>, id: RecipientId, nid: RecipientId, sid: RawStorageId, sid': RawStorageId)
    requires id in rows && rows[id].pni.Some? && nid != id
    ensures var r := SplitRows(rows, id, nid, sid);
      r[id := r[id].(storageId := Some(sid'))] == SplitRows(rows, id, nid, sid')
  {
  }

  /** The address the original row keeps clashes with no other row. */
  lemma KeptAddressClashesWithNone(rows: map<RecipientId, Row>, id: RecipientId)
    requires KeysUnique(rows) && id in rows && rows[id].pni.Some?
    ensures !ClashesWithSome(rows - {id}, KeptAddress(rows[id]))
  {
    var others := rows - {id};
    forall j | j in others ensures !AddressClashes(KeptAddress(rows[id]), others[j]) {
      assert !SharesKey(rows[id], rows[j]);
    }
  }

  /** Whether `storeContact` sends the row through the split: the contact
      carries an unregistered timestamp and the row holds both service ids. */
  predicate SplitsOnContact(r: Row, c: Option<Contact>) {
    c.Some? && c.value.unregisteredTimestamp.Some? && NeedsSplit(r)
  }

  /** The table after `storeContact` on an existing row, `nid` and `sid` being
      the next row id and the next storage id beforehand. */
  function ContactStoredRows(rows: map<RecipientId, Row>, id: RecipientId, c: Option<Contact>, nid: RecipientId, sid: RawStorageId): map<RecipientId, Row>
    requires id in rows
  {
    var w := WriteContact(rows[id], c);
    if SplitsOnContact(rows[id], c) then SplitRows(rows[id := w], id, nid, sid + 1)
    else rows[id := w.(storageId := Some(sid))]
  }

  /** What `storeContact` leaves in the table: the contact reads back as
      written, the row's profile, profile key and credential are untouched, it
      holds a fresh storage id, and no other existing row changes. The row keeps
      its address unless it is split. */
  lemma ContactStoredEffect(rows: map<RecipientId, Row>, id: RecipientId, c: Option<Contact>, nid: RecipientId, sid: RawStorageId)
    requires id in rows && nid !in rows
    ensures var r := ContactStoredRows(rows, id, c, nid, sid);
      && r.Keys == (if SplitsOnContact(rows[id], c) then rows.Keys + {nid} else rows.Keys)
      && ContactOf(r[id]) ==
           (if c.Some? && IsContactData(c.value) then
              Some(c.value.(hidden := rows[id].contact.hidden, unregisteredTimestamp := ReadTimestamp(c.value.unregisteredTimestamp)))
            else None)
      && r[id].profile == rows[id].profile && r[id].profileKey == rows[id].profileKey
      && r[id].profileKeyCredential == rows[id].profileKeyCredential
      && r[id].storageId == Some(if SplitsOnContact(rows[id], c) then sid + 1 else sid)
      && AddressOf(r[id]) ==
           (if SplitsOnContact(rows[id], c) then RecipientAddress(rows[id].aci, None, None, rows[id].username) else AddressOf(rows[id]))
      && (forall j :: j in rows && j != id ==> r[j] == rows[j])
  {
    var w := WriteContact(rows[id], c);
    WriteContactFrame(rows[id], c);
    ContactRoundTrip(rows[id], c);
    if SplitsOnContact(rows[id], c) {
      SplitRowsEffect(rows[id := w], id, nid, sid + 1);
    }
  }

  /** The steps of `storeContact` with a timestamp on an existing row, table
      by table: the UPDATE, the mark-and-split, the rotation. */
  lemma ContactStoredSteps(rows0: map<RecipientId, Row>, rows1: map<RecipientId, Row>, rows2: map<RecipientId, Row>,
                           rows3: map<RecipientId, Row>, id: RecipientId, c: Option<Contact>, now: int,
                           nid: RecipientId, sid: RawStorageId, sid': RawStorageId)
    requires id in rows0 && nid !in rows0 && c.Some? && c.value.unregisteredTimestamp.Some?
    requires rows1 == rows0[id := WriteContact(rows0[id], c)]
    requires !NeedsSplit(rows1[id]) ==> rows2 == rows1[id := Stamp(rows1[id], now)] && sid' == sid
    requires NeedsSplit(rows1[id]) ==> rows2 == SplitRows(rows1[id := Stamp(rows1[id], now)], id, nid, sid) && sid' == sid + 1
    requires id in rows2 && rows3 == rows2[id := rows2[id].(storageId := Some(sid'))]
    ensures rows3 == ContactStoredRows(rows0, id, c, nid, sid)
  {
    var w := WriteContact(rows0[id], c);
    WriteContactFrame(rows0[id], c);
    assert Stamp(w, now) == w;
    assert rows1[id := w] == rows1;
    if NeedsSplit(w) {
      SplitRestamp(rows1, id, nid, sid, sid + 1);
    }
  }

  predicate HoldsNumberIn(r: Row, numbers: set<string>) {
    r.number.Some? && r.number.value in numbers
  }

  /** Progress of `markUnregistered(numbers)` from table `rows0`, once the
      numbers in `done` are handled: their original holders are stamped, first
      timestamps are kept, and the other original rows are untouched. */
  ghost predicate MarkedSoFar(rows0: map<RecipientId, Row>, rows: map<RecipientId, Row>, done: set<string>) {
    && rows0.Keys <= rows.Keys
    && (forall i :: i in rows0 && HoldsNumberIn(rows0[i], done) ==> rows[i].unregisteredTimestamp.Some?)
    && (forall i :: i in rows0 && rows0[i].unregisteredTimestamp.Some? ==>
          rows[i].unregisteredTimestamp == rows0[i].unregisteredTimestamp)
    && (forall i :: i in rows0 && !HoldsNumberIn(rows0[i], done) ==> rows[i] == rows0[i])
  }

  /** Handling a number whose holder is row `id`. */
  lemma MarkedStep(rows0: map<RecipientId, Row>, rows: map<RecipientId, Row>, rows': map<RecipientId, Row>,
                   done: set<string>, n: string, id: RecipientId, now: int)
    requires MarkedSoFar(rows0, rows, done) && n !in done && KeysUnique(rows)
    requires id in rows && rows[id].number == Some(n)
    requires rows.Keys <= rows'.Keys
    requires forall j :: j in rows && j != id ==> rows'[j] == rows[j]
    requires rows'[id].unregisteredTimestamp == Stamp(rows[id], now).unregisteredTimestamp
    ensures MarkedSoFar(rows0, rows', done + {n})
  {
    forall i | i in rows0 && rows0[i].number == Some(n) ensures i == id {
      assert rows[i] == rows0[i];
      if i != id {
        assert SharesKey(rows[i], rows[id]);
      }
    }
  }

  /** Handling a number nobody holds changes nothing. */
  lemma MarkedSkip(rows0: map<RecipientId, Row>, rows: map<RecipientId, Row>, done: set<string>, n: string)
    requires MarkedSoFar(rows0, rows, done) && n !in done
    requires forall i :: i in rows ==> rows[i].number != Some(n)
    ensures MarkedSoFar(rows0, rows, done + {n})
  {
    forall i | i in rows0 ensures rows0[i].number != Some(n) {
      if HoldsNumberIn(rows0[i], done) {
      } else {
        assert rows[i] == rows0[i];
      }
    }
  }

  /** Nothing cached is dropped or changed; entries may be added. */
  ghost predicate CacheExtends(cache: map<ServiceId, RecipientWithAddress>, cache': map<ServiceId, RecipientWithAddress>) {
    forall s :: s in cache ==> s in cache' && cache'[s] == cache[s]
  }

  // ---------------------------------------------------------------------------
  // Merging

  /** `getProfileKey` on a table: the local account's key comes from its
      provider, any other from the row. */
  function ProfileKeyOf(rows: map<RecipientId, Row>, id: RecipientId, self: SelfAccount): Option<ProfileKey> {
    if id == self.recipientId then self.profileKey
    else if id in rows then rows[id].profileKey
    else None
  }

  /** The rows of `rows` other than `id` survive unchanged in `rows'`, and
      every row `rows'` adds has an id at or above `nid`. */
  ghost predicate OthersKept(rows: map<RecipientId, Row>, rows': map<RecipientId, Row>, id: RecipientId, nid: RecipientId) {
    && rows.Keys <= rows'.Keys
    && (forall j :: j in rows && j != id ==> rows'[j] == rows[j])
    && (forall j :: j in rows' && j !in rows ==> nid <= j)
  }

  lemma OthersKeptTrans(rows: map<RecipientId, Row>, rows': map<RecipientId, Row>, rows'': map<RecipientId, Row>,
                        id: RecipientId, nid: RecipientId, nid': RecipientId)
    requires OthersKept(rows, rows', id, nid) && OthersKept(rows', rows'', id, nid') && nid <= nid'
    ensures OthersKept(rows, rows'', id, nid)
  {
  }

  /** What the copying part of a merge guarantees: the loser and every other
      existing row are untouched, new rows have fresh ids, and each piece of
      data the winner lacked now comes from the loser. */
  ghost predicate DataMerged(rows0: map<RecipientId, Row>, rows: map<RecipientId, Row>, winner: RecipientId, loser: RecipientId,
                             self: SelfAccount, nid: RecipientId)
  {
    RowsKept(rows0, rows, winner, loser, nid) && WinnerFilled(rows0, rows, winner, loser, self)
  }

  ghost predicate RowsKept(rows0: map<RecipientId, Row>, rows: map<RecipientId, Row>, winner: RecipientId, loser: RecipientId, nid: RecipientId) {
    && winner in rows0 && loser in rows0 && winner in rows && loser in rows && rows[loser] == rows0[loser]
    && OthersKept(rows0, rows, winner, nid)
  }

  ghost predicate WinnerFilled(rows0: map<RecipientId, Row>, rows: map<RecipientId, Row>, winner: RecipientId, loser: RecipientId, self: SelfAccount)
    requires winner in rows0 && loser in rows0 && winner in rows
  {
    && ContactOf(rows[winner]) == MergedContact(ContactOf(rows0[winner]), ContactOf(rows0[loser]), rows0[winner].contact.hidden)
    && rows[winner].profileKey ==
         (if ProfileKeyOf(rows0, winner, self).Some? then rows0[winner].profileKey else ProfileKeyOf(rows0, loser, self))
    && rows[winner].profileKeyCredential ==
         (if ProfileKeyOf(rows0, winner, self).Some? && rows0[winner].profileKeyCredential.Some?
          then rows0[winner].profileKeyCredential
          else rows0[loser].profileKeyCredential)
    && ProfileOf(rows[winner]) ==
         (if ProfileOf(rows0[winner]).Some? then ProfileOf(rows0[winner]) else ProfileOf(rows0[loser]))
  }

  /** The contact block: existing rows other than the winner are kept, and
      only the winner's contact columns (and, on a split, its address) change. */
  ghost predicate ContactBlock(rows0: map<RecipientId, Row>, rows1: map<RecipientId, Row>, winner: RecipientId, loser: RecipientId, nid: RecipientId) {
    && winner in rows0 && loser in rows0 && winner != loser
    && winner in rows1 && OthersKept(rows0, rows1, winner, nid)
    && ContactOf(rows1[winner]) == MergedContact(ContactOf(rows0[winner]), ContactOf(rows0[loser]), rows0[winner].contact.hidden)
    && rows1[winner].profile == rows0[winner].profile && rows1[winner].profileKey == rows0[winner].profileKey
    && rows1[winner].profileKeyCredential == rows0[winner].profileKeyCredential
  }

  /** The profile-key block: a winner without a key takes the loser's, which
      clears its credential. */
  ghost predicate KeyBlock(rows1: map<RecipientId, Row>, rows2: map<RecipientId, Row>, winner: RecipientId, loser: RecipientId, self: SelfAccount) {
    && winner in rows1 && OnlyRowChanged(rows1, rows2, winner)
    && ContactOf(rows2[winner]) == ContactOf(rows1[winner]) && ProfileOf(rows2[winner]) == ProfileOf(rows1[winner])
    && rows2[winner].profileKey ==
         (if ProfileKeyOf(rows1, winner, self).Some? then rows1[winner].profileKey else ProfileKeyOf(rows1, loser, self))
    && rows2[winner].profileKeyCredential ==
         (if ProfileKeyOf(rows1, winner, self).Some? then rows1[winner].profileKeyCredential else None)
  }

  /** The credential block: a winner without a credential takes the loser's. */
  ghost predicate CredentialBlock(rows2: map<RecipientId, Row>, rows3: map<RecipientId, Row>, winner: RecipientId, loser: RecipientId) {
    && winner in rows2 && loser in rows2 && OnlyRowChanged(rows2, rows3, winner)
    && rows3[winner] == rows2[winner].(profileKeyCredential :=
         if rows2[winner].profileKeyCredential.Some? then rows2[winner].profileKeyCredential else rows2[loser].profileKeyCredential)
  }

  /** The profile block: a winner without a profile takes the loser's. */
  ghost predicate ProfileBlock(rows3: map<RecipientId, Row>, rows4: map<RecipientId, Row>, winner: RecipientId, loser: RecipientId) {
    && winner in rows3 && loser in rows3 && OnlyRowChanged(rows3, rows4, winner)
    && ProfileOf(rows4[winner]) == (if ProfileOf(rows3[winner]).Some? then ProfileOf(rows3[winner]) else ProfileOf(rows3[loser]))
    && ContactOf(rows4[winner]) == ContactOf(rows3[winner])
    && rows4[winner].profileKey == rows3[winner].profileKey
    && rows4[winner].profileKeyCredential == rows3[winner].profileKeyCredential
  }

  /** The last three blocks together: only the winner's row changes, its
      contact stays, and its profile key, credential and profile are its own
      or else the loser's. */
  ghost predicate RestBlock(rows1: map<RecipientId, Row>, rows4: map<RecipientId, Row>, winner: RecipientId, loser: RecipientId, self: SelfAccount) {
    && winner in rows1 && loser in rows1 && winner != loser && OnlyRowChanged(rows1, rows4, winner)
    && ContactOf(rows4[winner]) == ContactOf(rows1[winner])
    && rows4[winner].profileKey ==
         (if ProfileKeyOf(rows1, winner, self).Some? then rows1[winner].profileKey else ProfileKeyOf(rows1, loser, self))
    && rows4[winner].profileKeyCredential ==
         (if ProfileKeyOf(rows1, winner, self).Some? && rows1[winner].profileKeyCredential.Some?
          then rows1[winner].profileKeyCredential
          else rows1[loser].profileKeyCredential)
    && ProfileOf(rows4[winner]) ==
         (if ProfileOf(rows1[winner]).Some? then ProfileOf(rows1[winner]) else ProfileOf(rows1[loser]))
  }

  lemma RestSteps(rows1: map<RecipientId, Row>, rows2: map<RecipientId, Row>, rows3: map<RecipientId, Row>, rows4: map<RecipientId, Row>,
                  winner: RecipientId, loser: RecipientId, self: SelfAccount)
    requires winner != loser && loser in rows1
    requires KeyBlock(rows1, rows2, winner, loser, self)
    requires CredentialBlock(rows2, rows3, winner, loser)
    requires ProfileBlock(rows3, rows4, winner, loser)
    ensures RestBlock(rows1, rows4, winner, loser, self)
  {
    assert rows3[loser] == rows2[loser] == rows1[loser];
    assert ProfileOf(rows3[winner]) == ProfileOf(rows2[winner]);
  }

  /** The contact block followed by the other three add up to `DataMerged`. */
  lemma MergeSteps(rows0: map<RecipientId, Row>, rows1: map<RecipientId, Row>, rows4: map<RecipientId, Row>,
                   winner: RecipientId, loser: RecipientId, self: SelfAccount, nid: RecipientId)
    requires ContactBlock(rows0, rows1, winner, loser, nid)
    requires RestBlock(rows1, rows4, winner, loser, self)
    ensures DataMerged(rows0, rows4, winner, loser, self, nid)
  {
    assert rows1[loser] == rows0[loser];
  }

  /** The winner's contact after a merge: its own when it has one, otherwise
      the loser's, which keeps the winner's `hidden` flag. */
  function MergedContact(winner: Option<Contact>, loser: Option<Contact>, hidden: bool): (c: Option<Contact>)
    ensures winner.Some? ==> c == winner
    ensures winner.None? ==> c.Some? == loser.Some?
    ensures c.Some? && winner.None? ==> c.value.(hidden := loser.value.hidden) == loser.value && c.value.hidden == hidden
  {
    if winner.Some? then winner else if loser.Some? then Some(loser.value.(hidden := hidden)) else None
  }

  /** The ids a sequence lists. */
  function Ids(ids: seq<RecipientId>): (r: set<RecipientId>)
    ensures forall i :: i in r <==> i in ids
  {
    set i | i in ids
  }

  /** The cache once every entry naming one of `ids` is evicted. */
  function EvictAll(cache: map<ServiceId, RecipientWithAddress>, ids: set<RecipientId>): map<ServiceId, RecipientWithAddress> {
    map s | s in cache && cache[s].id !in ids :: cache[s]
  }

  /** One more loser deleted and evicted. */
  lemma RemovedStep(rows0: map<RecipientId, Row>, cache0: map<ServiceId, RecipientWithAddress>, losers: seq<RecipientId>, i: nat)
    requires i < |losers|
    ensures (rows0 - Ids(losers[..i])) - {losers[i]} == rows0 - Ids(losers[..i + 1])
    ensures Evict(EvictAll(cache0, Ids(losers[..i])), losers[i]) == EvictAll(cache0, Ids(losers[..i + 1]))
  {
    assert losers[..i + 1] == losers[..i] + [losers[i]];
    assert Ids(losers[..i + 1]) == Ids(losers[..i]) + {losers[i]};
  }

  /** Deleting a row keeps the UNIQUE columns unique. */
  lemma DeleteKeepsUnique(rows: map<RecipientId, Row>, id: RecipientId)
    requires KeysUnique(rows)
    ensures KeysUnique(rows - {id})
  {
    forall i, j | i in rows - {id} && j in rows - {id} && i != j ensures !SharesKey((rows - {id})[i], (rows - {id})[j]) {
      assert !SharesKey(rows[i], rows[j]);
    }
  }

  /** The redirects after merging the `done` losers into `winner`: each of them
      points at the winner, every other entry is as it was. */
  ghost predicate RedirectedSoFar(merged0: map<RecipientId, RecipientId>, merged: map<RecipientId, RecipientId>,
                                  winner: RecipientId, done: seq<RecipientId>) {
    && (forall k :: k in merged <==> k in merged0 || k in done)
    && (forall k :: k in merged ==> merged[k] == if k in done then winner else merged0[k])
  }

  lemma RedirectedStep(merged0: map<RecipientId, RecipientId>, merged: map<RecipientId, RecipientId>,
                       winner: RecipientId, done: seq<RecipientId>, loser: RecipientId)
    requires RedirectedSoFar(merged0, merged, winner, done)
    ensures RedirectedSoFar(merged0, merged[loser := winner], winner, done + [loser])
  {
  }

  /** Whether `resolveRecipientTrustedLocked` resolves the address directly
      rather than through the merge helper. */
  predicate ResolvesDirectly(address: RecipientAddress, isSelf: bool, self: SelfAccount) {
    HasSingleIdentifier(address) || (!isSelf && Matches(self.address, address))
  }

  // ---------------------------------------------------------------------------
  // The merge helper's table writes

  /** A write `MergeRecipientHelper` makes through `HelperStore`: one call of
      `addNewRecipient`, `updateRecipientAddress` or `removeRecipientAddress`. */
  datatype HelperWrite =
    | AddRecipient(address: RecipientAddress)
    | UpdateAddress(id: RecipientId, address: RecipientAddress)
    | RemoveAddress(id: RecipientId)

  /** The part of the store those writes change. */
  datatype Table = Table(rows: map<RecipientId, Row>, nextId: RecipientId, nextStorageId: RawStorageId)

  ghost predicate TableSound(t: Table) {
    && KeysUnique(t.rows)
    && (forall i :: i in t.rows ==> i < t.nextId)
    && StorageIdsBelow(t.rows, t.nextStorageId)
  }

  /** One write, with the effect the store's own method gives it: the INSERT
      and the address UPDATE fail on a clash, the UPDATE rotates the storage
      id, the removal clears the keys and the storage id. */
  ghost function HelperStep(t: Table, w: HelperWrite): Result<Table> {
    match w
    case AddRecipient(a) =>
      if ClashesWithSome(t.rows, a) then Err(UniqueConstraintViolated)
      else Ok(Table(t.rows[t.nextId := NewRow(a)], t.nextId + 1, t.nextStorageId))
    case UpdateAddress(id, a) =>
      if id !in t.rows then Ok(t.(nextStorageId := t.nextStorageId + 1))
      else if ClashesWithSome(t.rows - {id}, a) then Err(UniqueConstraintViolated)
      else Ok(Table(t.rows[id := WithAddress(t.rows[id], a).(storageId := Some(t.nextStorageId))], t.nextId, t.nextStorageId + 1))
    case RemoveAddress(id) =>
      if id !in t.rows then Ok(t)
      else Ok(t.(rows := t.rows[id := WithAddress(t.rows[id], RecipientAddress(None, None, None, None)).(storageId := None)]))
  }

  /** The writes in order; the first one that fails ends the sequence. */
  ghost function HelperWrites(t: Table, ws: seq<HelperWrite>): Result<Table>
    decreases |ws|
  {
    if ws == [] then Ok(t)
    else match HelperStep(t, ws[0])
      case Err(e) => Err(e)
      case Ok(t') => HelperWrites(t', ws[1..])
  }

  /** The rows an update or a removal names. */
  function Named(ws: seq<HelperWrite>): set<RecipientId> {
    set k | 0 <= k < |ws| && !ws[k].AddRecipient? :: ws[k].id
  }

  lemma HelperStepKeeps(t: Table, w: HelperWrite)
    requires TableSound(t)
    ensures HelperStep(t, w).Ok? ==> var t' := HelperStep(t, w).value;
      && TableSound(t')
      && t.rows.Keys <= t'.rows.Keys
      && t.nextId <= t'.nextId && t.nextStorageId <= t'.nextStorageId
      && (forall j :: j in t.rows && (w.AddRecipient? || j != w.id) ==> t'.rows[j] == t.rows[j])
      && (forall j :: j in t'.rows && j !in t.rows ==> t.nextId <= j)
  {
    if HelperStep(t, w).Ok? {
      match w
      case AddRecipient(a) =>
        var row := NewRow(a);
        forall j | j in t.rows ensures !SharesKey(row, t.rows[j]) {
          assert !AddressClashes(a, t.rows[j]);
        }
        UpdateKeepsUnique(t.rows, t.nextId, row);
      case UpdateAddress(id, a) =>
        if id in t.rows {
          AddressUpdateKeepsUnique(t.rows, id, a);
          var moved := t.rows[id := WithAddress(t.rows[id], a)];
          var row := moved[id].(storageId := Some(t.nextStorageId));
          forall j | j in moved && j != id ensures !SharesKey(row, moved[j]) {
            assert !SharesKey(moved[id], moved[j]);
          }
          UpdateKeepsUnique(moved, id, row);
          assert t.rows[id := row] == moved[id := row];
        }
      case RemoveAddress(id) =>
        if id in t.rows {
          UpdateKeepsUnique(t.rows, id, WithAddress(t.rows[id], RecipientAddress(None, None, None, None)).(storageId := None));
        }
    }
  }

  /** The helper's writes keep the table invariants, remove no row, raise the
      counters only, and leave every existing row they do not name as it
      was; the rows they add take ids from the counter. */
  lemma {:induction false} HelperWritesKeep(t: Table, ws: seq<HelperWrite>)
    requires TableSound(t)
    ensures HelperWrites(t, ws).Ok? ==> var t' := HelperWrites(t, ws).value;
      && TableSound(t')
      && t.rows.Keys <= t'.rows.Keys
      && t.nextId <= t'.nextId && t.nextStorageId <= t'.nextStorageId
      && (forall j :: j in t.rows && j !in Named(ws) ==> t'.rows[j] == t.rows[j])
      && (forall j :: j in t'.rows && j !in t.rows ==> t.nextId <= j)
    decreases |ws|
  {
    if ws != [] && HelperStep(t, ws[0]).Ok? {
      HelperStepKeeps(t, ws[0]);
      var t1 := HelperStep(t, ws[0]).value;
      HelperWritesKeep(t1, ws[1..]);
      forall j | j in Named(ws[1..]) ensures j in Named(ws) {
        var k :| 0 <= k < |ws[1..]| && !ws[1..][k].AddRecipient? && ws[1..][k].id == j;
        assert ws[k + 1] == ws[1..][k];
      }
      if !ws[0].AddRecipient? {
        assert ws[0].id in Named(ws);
      }
    }
  }

  /** Worked example: row 1 holds only ACI 7 and row 2 only the number
      "+1555". A helper that takes the number off row 2 and writes the full
      address onto row 1 leaves the number with row 1, the winner. */
  lemma ScenarioNumberMovesToWinner()
    ensures var t := Table(map[1 := NewRow(RecipientAddress(Some(7), None, None, None)),
                               2 := NewRow(RecipientAddress(None, None, Some("+1555"), None))], 3, 0);
      var r := HelperWrites(t, [RemoveAddress(2), UpdateAddress(1, RecipientAddress(Some(7), None, Some("+1555"), None))]);
      && r.Ok?
      && r.value.rows.Keys == {1, 2}
      && AddressOf(r.value.rows[1]) == RecipientAddress(Some(7), None, Some("+1555"), None)
      && AddressOf(r.value.rows[2]) == RecipientAddress(None, None, None, None)
  {
    var full := RecipientAddress(Some(7), None, Some("+1555"), None);
    var t := Table(map[1 := NewRow(RecipientAddress(Some(7), None, None, None)),
                       2 := NewRow(RecipientAddress(None, None, Some("+1555"), None))], 3, 0);
    var t1 := HelperStep(t, RemoveAddress(2)).value;
    assert !ClashesWithSome(t1.rows - {1}, full) by {
      assert t1.rows - {1} == map[2 := t1.rows[2]];
    }
    var ws := [RemoveAddress(2), UpdateAddress(1, full)];
    assert ws[1..] == [UpdateAddress(1, full)] && ws[1..][1..] == [];
  }

  /** What the store needs of the helper's answer, on the table its writes
      leave behind: a live winner that was never merged away, and live
      losers other than the winner. */
  ghost predicate HelperAnswerFits(t: Result<Table>, merged: map<RecipientId, RecipientId>,
                                   winner: RecipientId, losers: seq<RecipientId>) {
    t.Ok? ==>
      && winner in t.value.rows && winner !in merged
      && forall l :: l in losers ==> l in t.value.rows && l != winner
  }

  // ---------------------------------------------------------------------------
  // Bulk storage-id updates

  /** The rows `setMissingStorageIds` selects: no storage id and not
      unregistered. */
  predicate NeedsStorageId(r: Row) {
    r.storageId.None? && r.unregisteredTimestamp.None?
  }

  /** Progress of `setMissingStorageIds` from table `rows0` while `todo` is
      left: every selected row done so far holds a storage id at or above
      `sid0` and is otherwise unchanged; every other row is untouched. */
  ghost predicate AssignedSoFar(rows0: map<RecipientId, Row>, rows: map<RecipientId, Row>, todo: set<RecipientId>, sid0: nat) {
    && rows.Keys == rows0.Keys
    && (forall i :: i in rows0 && NeedsStorageId(rows0[i]) && i !in todo ==>
          && rows[i].storageId.Some? && sid0 <= rows[i].storageId.value
          && rows[i] == rows0[i].(storageId := rows[i].storageId))
    && (forall i :: i in rows0 && !(NeedsStorageId(rows0[i]) && i !in todo) ==> rows[i] == rows0[i])
  }

  lemma AssignedStep(rows0: map<RecipientId, Row>, rows: map<RecipientId, Row>, todo: set<RecipientId>, sid0: nat,
                     i: RecipientId, sid: RawStorageId)
    requires AssignedSoFar(rows0, rows, todo, sid0)
    requires i in todo && i in rows0 && NeedsStorageId(rows0[i]) && sid0 <= sid
    ensures AssignedSoFar(rows0, rows[i := rows[i].(storageId := Some(sid))], todo - {i}, sid0)
  {
  }

  /** The rows `removeStorageIdsFromLocalOnlyUnregisteredRecipients` clears:
      unregistered rows holding one of the storage ids. */
  function ClearedIds(rows: map<RecipientId, Row>, sids: seq<RawStorageId>): set<RecipientId> {
    set i | i in rows && rows[i].storageId.Some? && rows[i].storageId.value in sids && rows[i].unregisteredTimestamp.Some?
  }

  /** The table once those rows have lost their storage id: no unregistered
      row holds one of the ids, registered rows are untouched, and only the
      storage id column changes. */
  function ClearedRows(rows: map<RecipientId, Row>, sids: seq<RawStorageId>): (r: map<RecipientId, Row>)
    ensures r.Keys == rows.Keys
    ensures forall i :: i in r && r[i].unregisteredTimestamp.Some? && r[i].storageId.Some? ==> r[i].storageId.value !in sids
    ensures forall i :: i in r && rows[i].unregisteredTimestamp.None? ==> r[i] == rows[i]
    ensures forall i :: i in r ==> r[i] == rows[i].(storageId := r[i].storageId)
  {
    map i | i in rows :: if i in ClearedIds(rows, sids) then rows[i].(storageId := None) else rows[i]
  }

  /** One more storage id cleared: its unregistered holder, if any, joins the
      cleared rows, and is the only row that does. */
  lemma ClearedStep(rows0: map<RecipientId, Row>, sids: seq<RawStorageId>, s: RawStorageId, sids': seq<RawStorageId>,
                    rows: map<RecipientId, Row>, holder: Option<RecipientId>, rows': map<RecipientId, Row>)
    requires KeysUnique(rows0) && sids' == sids + [s] && rows == ClearedRows(rows0, sids)
    requires holder.Some? ==>
      && holder.value in rows && rows[holder.value].storageId == Some(s) && rows[holder.value].unregisteredTimestamp.Some?
      && rows' == rows[holder.value := rows[holder.value].(storageId := None)]
    requires holder.None? ==>
      && (forall j :: j in rows ==> !(rows[j].storageId == Some(s) && rows[j].unregisteredTimestamp.Some?))
      && rows' == rows
    ensures rows' == ClearedRows(rows0, sids')
    ensures |ClearedIds(rows0, sids')| == |ClearedIds(rows0, sids)| + (if holder.Some? then 1 else 0)
  {
    var before := ClearedIds(rows0, sids);
    var after := ClearedIds(rows0, sids');
    if holder.Some? {
      var h := holder.value;
      assert rows[h] == rows0[h];
      forall i | i in after ensures i in before || i == h {
        if i !in before && i != h {
          assert rows0[i].storageId == Some(s);
          assert SharesKey(rows0[i], rows0[h]);
        }
      }
      assert after == before + {h};
    } else {
      assert after == before;
    }
  }

  // ---------------------------------------------------------------------------
  // Keeping the invariant across table updates

  /** A row written over `id` keeps the keys unique when it clashes with no
      other row. */
  lemma UpdateKeepsUnique(rows: map<RecipientId, Row>, id: RecipientId, r: Row)
    requires KeysUnique(rows)
    requires forall j :: j in rows && j != id ==> !SharesKey(r, rows[j])
    ensures KeysUnique(rows[id := r])
  {
    var rows' := rows[id := r];
    forall i, j | i in rows' && j in rows' && i != j ensures !SharesKey(rows'[i], rows'[j]) {
      if i == id {
        assert !SharesKey(r, rows[j]);
      } else if j == id {
        assert !SharesKey(r, rows[i]);
      } else {
        assert !SharesKey(rows[i], rows[j]);
      }
    }
  }

  /** A row whose keys are a part of the old row's keys clashes with no one. */
  lemma NarrowedRowKeepsUnique(rows: map<RecipientId, Row>, id: RecipientId, r: Row)
    requires KeysUnique(rows) && id in rows
    requires KeysWithin(r, rows[id])
    ensures KeysUnique(rows[id := r])
  {
    forall j | j in rows && j != id ensures !SharesKey(r, rows[j]) {
      assert !SharesKey(rows[id], rows[j]);
    }
    UpdateKeepsUnique(rows, id, r);
  }

  /** The cache stays sound when no row's address changes and no row goes away. */
  lemma CacheSoundSameAddresses(cache: map<ServiceId, RecipientWithAddress>, rows: map<RecipientId, Row>, rows': map<RecipientId, Row>)
    requires CacheSound(cache, rows)
    requires rows.Keys <= rows'.Keys
    requires forall i :: i in rows ==> AddressOf(rows'[i]) == AddressOf(rows[i])
    ensures CacheSound(cache, rows')
  {
    forall s | s in cache
      ensures cache[s].id in rows' && cache[s].address == AddressOf(rows'[cache[s].id]) && HoldsServiceId(rows'[cache[s].id], s)
    {
      var i := cache[s].id;
      assert AddressOf(rows'[i]) == AddressOf(rows[i]);
    }
  }

  /** Evicting a row's entries keeps the cache sound even once the row is gone. */
  lemma EvictKeepsSound(cache: map<ServiceId, RecipientWithAddress>, rows: map<RecipientId, Row>, id: RecipientId)
    requires CacheSound(cache, rows)
    ensures CacheSound(Evict(cache, id), rows) && CacheSound(Evict(cache, id), rows - {id})
  {
  }

  /** Only row `id` may differ between the two tables. */
  ghost predicate OnlyRowChanged(rows: map<RecipientId, Row>, rows': map<RecipientId, Row>, id: RecipientId) {
    rows'.Keys == rows.Keys && forall j :: j in rows' && j != id ==> rows'[j] == rows[j]
  }

  lemma OnlyRowChangedTrans(rows: map<RecipientId, Row>, rows': map<RecipientId, Row>, rows'': map<RecipientId, Row>, id: RecipientId)
    requires OnlyRowChanged(rows, rows', id) && OnlyRowChanged(rows', rows'', id)
    ensures OnlyRowChanged(rows, rows'', id)
  {
  }

  /** Deleting a row after updates to it alone leaves the other rows as they were. */
  lemma DeleteAfterUpdates(rows: map<RecipientId, Row>, rows': map<RecipientId, Row>, id: RecipientId)
    requires OnlyRowChanged(rows, rows', id)
    ensures rows' - {id} == rows - {id}
  {
  }

  /** A row rewritten with a new address that clashes with no other row keeps
      the keys unique. */
  lemma AddressUpdateKeepsUnique(rows: map<RecipientId, Row>, id: RecipientId, a: RecipientAddress)
    requires KeysUnique(rows) && id in rows
    requires !ClashesWithSome(rows - {id}, a)
    ensures KeysUnique(rows[id := WithAddress(rows[id], a)])
  {
    var row := WithAddress(rows[id], a);
    forall j | j in rows && j != id ensures !SharesKey(row, rows[j]) {
      assert j in rows - {id};
      assert !AddressClashes(a, (rows - {id})[j]);
      assert !SharesKey(rows[id], rows[j]);
    }
    UpdateKeepsUnique(rows, id, row);
  }

  /** A cache with no entry for `id` stays sound whatever happens to that row. */
  lemma CacheSoundOtherRow(cache: map<ServiceId, RecipientWithAddress>, rows: map<RecipientId, Row>, id: RecipientId, row: Row)
    requires CacheSound(cache, rows)
    requires forall s :: s in cache ==> cache[s].id != id
    ensures CacheSound(cache, rows[id := row])
  {
  }

  /** The first UPDATE of `storeStorageRecord`: every row holding the storage
      id lets go of it. */
  function ReleaseStorageId(rows: map<RecipientId, Row>, sid: RawStorageId): (r: map<RecipientId, Row>)
    ensures r.Keys == rows.Keys
    ensures forall j :: j in r ==> r[j].storageId != Some(sid)
  {
    map j | j in rows :: if rows[j].storageId == Some(sid) then rows[j].(storageId := None) else rows[j]
  }

  /** Both UPDATEs of `storeStorageRecord`: the storage id moves to row `id`
      with the record. */
  function StoredRecordRows(rows: map<RecipientId, Row>, id: RecipientId, sid: RawStorageId, record: Option<Bytes>): (r: map<RecipientId, Row>)
    ensures r.Keys == rows.Keys
    ensures id in r ==> r[id] == rows[id].(storageId := Some(sid), storageRecord := record)
    ensures forall j :: j in r && j != id ==> r[j].storageId != Some(sid)
    ensures forall j :: j in r && j != id ==>
      r[j] == rows[j] || (rows[j].storageId == Some(sid) && r[j] == rows[j].(storageId := None))
  {
    var released := ReleaseStorageId(rows, sid);
    if id in released then released[id := released[id].(storageId := Some(sid), storageRecord := record)] else released
  }

  /** Rows whose keys are parts of two rows that share none share none either. */
  lemma WithinKeepsApart(a: Row, a': Row, b: Row, b': Row)
    requires KeysWithin(a, a') && KeysWithin(b, b') && !SharesKey(a', b')
    ensures !SharesKey(a, b)
  {
  }

  /** A table where every row keeps only part of its keys keeps them unique. */
  lemma NarrowedTableKeepsUnique(rows: map<RecipientId, Row>, rows': map<RecipientId, Row>)
    requires KeysUnique(rows) && rows'.Keys == rows.Keys
    requires forall j :: j in rows ==> KeysWithin(rows'[j], rows[j])
    ensures KeysUnique(rows')
  {
    forall i, j | i in rows' && j in rows' && i != j ensures !SharesKey(rows'[i], rows'[j]) {
      WithinKeepsApart(rows'[i], rows[i], rows'[j], rows[j]);
    }
  }

  lemma ReleaseKeepsInvariant(rows: map<RecipientId, Row>, sid: RawStorageId, bound: nat)
    requires KeysUnique(rows) && StorageIdsBelow(rows, bound)
    ensures var r := ReleaseStorageId(rows, sid);
      && KeysUnique(r) && StorageIdsBelow(r, bound)
      && (forall j :: j in rows ==> AddressOf(r[j]) == AddressOf(rows[j]))
  {
    var r := ReleaseStorageId(rows, sid);
    assert forall j :: j in rows ==> KeysWithin(r[j], rows[j]);
    NarrowedTableKeepsUnique(rows, r);
  }

  /** A row taking a storage id nobody else holds keeps the keys unique. */
  lemma ClaimKeepsUnique(rows: map<RecipientId, Row>, id: RecipientId, sid: RawStorageId, record: Option<Bytes>)
    requires KeysUnique(rows) && id in rows
    requires forall j :: j in rows && j != id ==> rows[j].storageId != Some(sid)
    ensures KeysUnique(rows[id := rows[id].(storageId := Some(sid), storageRecord := record)])
  {
    var row := rows[id].(storageId := Some(sid), storageRecord := record);
    forall j | j in rows && j != id ensures !SharesKey(row, rows[j]) {
      assert !SharesKey(rows[id], rows[j]);
    }
    UpdateKeepsUnique(rows, id, row);
  }

  lemma StoredRecordKeepsInvariant(rows: map<RecipientId, Row>, id: RecipientId, sid: RawStorageId, record: Option<Bytes>, bound: nat)
    requires KeysUnique(rows) && StorageIdsBelow(rows, bound)
    ensures var r := StoredRecordRows(rows, id, sid, record);
      && KeysUnique(r)
      && StorageIdsBelow(r, if sid < bound then bound else sid + 1)
      && (forall j :: j in rows ==> AddressOf(r[j]) == AddressOf(rows[j]))
  {
    var released := ReleaseStorageId(rows, sid);
    ReleaseKeepsInvariant(rows, sid, bound);
    if id in released {
      ClaimKeepsUnique(released, id, sid, record);
    }
  }

  // ---------------------------------------------------------------------------
  // The store

  class RecipientStore {
    var rows: map<RecipientId, Row>
    /** The AUTOINCREMENT sequence: the id the next INSERT receives. */
    var nextId: RecipientId
    /** Stands for `KeyUtils.createRawStorageId()`: every id at or above it
        is unused. */
    var nextStorageId: RawStorageId
    var recipientsMerged: map<RecipientId, RecipientId>
    var recipientAddressCache: map<ServiceId, RecipientWithAddress>
    /** The merge clock at which each redirect was recorded. */
    ghost var mergedAt: map<RecipientId, nat>
    ghost var mergeClock: nat

    ghost predicate Consistent()
      reads this
    {
      && KeysUnique(rows)
      && (forall i :: i in rows ==> i < nextId)
      && StorageIdsBelow(rows, nextStorageId)
      && CacheSound(recipientAddressCache, rows)
      && Ranked(recipientsMerged, mergedAt, mergeClock)
      && (forall k :: k in recipientsMerged ==> k < nextId)
    }

    ghost predicate Valid()
      reads this
    {
      && Consistent()
      && (forall k :: k in recipientsMerged ==> k !in rows)
    }

    constructor ()
      ensures Valid()
      ensures rows == map[] && recipientsMerged == map[] && recipientAddressCache == map[]
    {
      rows := map[];
      nextId := 1;
      nextStorageId := 0;
      recipientsMerged := map[];
      recipientAddressCache := map[];
      mergedAt := map[];
      mergeClock := 0;
    }

    // -------------------------------------------------------------------------
    // Reads

    /** `getContact`. */
    function GetContact(id: RecipientId): (c: Option<Contact>)
      reads this
      ensures c.Some? <==> id in rows && IsContactColumns(rows[id].contact)
      ensures c.Some? ==> IsContactData(c.value) && c == ContactOf(rows[id])
    {
      if id in rows then ContactOf(rows[id]) else None
    }

    /** `getProfile`. */
    function GetProfile(id: RecipientId): (p: Option<Profile>)
      reads this
      ensures p.Some? <==> id in rows && rows[id].profile.capabilities.Some?
    {
      if id in rows then ProfileOf(rows[id]) else None
    }

    /** `getProfileKey`: the local account's key comes from its provider. */
    function GetProfileKey(id: RecipientId, self: SelfAccount): (k: Option<ProfileKey>)
      reads this
      ensures id == self.recipientId ==> k == self.profileKey
      ensures id != self.recipientId ==> (k.Some? ==> id in rows && k == rows[id].profileKey)
      ensures id != self.recipientId && id in rows ==> k == rows[id].profileKey
    {
      ProfileKeyOf(rows, id, self)
    }

    /** `getExpiringProfileKeyCredential`. */
    function GetCredential(id: RecipientId): (c: Option<ProfileKeyCredential>)
      reads this
      ensures c.Some? ==> id in rows && c == rows[id].profileKeyCredential
      ensures id in rows ==> c == rows[id].profileKeyCredential
    {
      if id in rows then rows[id].profileKeyCredential else None
    }

    /** `findByNumber`. */
    method FindByNumber(number: string) returns (o: Option<RecipientWithAddress>)
      requires Consistent()
      ensures o == Found(rows, NumberColumn(number))
    {
      if i :| i in rows && rows[i].number == Some(number) {
        LookupUnique(rows, NumberColumn(number), i);
        o := Some(RecipientWithAddress(i, AddressOf(rows[i])));
      } else {
        o := None;
      }
    }

    /** `findByServiceId`: a cache hit is returned as is; otherwise the row
        holding the service id is looked up and cached, if there is one. */
    method FindByServiceId(s: ServiceId) returns (o: Option<RecipientWithAddress>)
      requires Consistent()
      modifies this`recipientAddressCache
      ensures Consistent() && (old(Valid()) ==> Valid())
      ensures o == Found(rows, ServiceColumn(s))
      ensures s in old(recipientAddressCache) ==> recipientAddressCache == old(recipientAddressCache)
      ensures s !in old(recipientAddressCache) ==>
        recipientAddressCache == if o.Some? then old(recipientAddressCache)[s := o.value] else old(recipientAddressCache)
    {
      if s in recipientAddressCache {
        o := Some(recipientAddressCache[s]);
        LookupUnique(rows, ServiceColumn(s), o.value.id);
        return;
      }
      if i :| i in rows && HoldsServiceId(rows[i], s) {
        LookupUnique(rows, ServiceColumn(s), i);
        o := Some(RecipientWithAddress(i, AddressOf(rows[i])));
        recipientAddressCache := recipientAddressCache[s := o.value];
      } else {
        o := None;
      }
    }

    // -------------------------------------------------------------------------
    // Rows and addresses

    /** `addNewRecipient`: an INSERT of the four keys under the next id, which
        fails when any of them is already held. */
    method AddNewRecipient(address: RecipientAddress) returns (r: Result<RecipientId>)
      requires Consistent()
      modifies this`rows, this`nextId
      ensures Consistent() && (old(Valid()) ==> Valid())
      ensures r.Err? <==> ClashesWithSome(old(rows), address)
      ensures r.Err? ==> r.error == UniqueConstraintViolated && rows == old(rows) && nextId == old(nextId)
      ensures r.Ok? ==> r.value == old(nextId) && r.value !in old(rows)
      ensures r.Ok? ==> rows == old(rows)[r.value := NewRow(address)] && nextId == old(nextId) + 1
    {
      if i :| i in rows && AddressClashes(address, rows[i]) {
        return Err(UniqueConstraintViolated);
      }
      var id := nextId;
      var row := NewRow(address);
      assert forall j :: j in rows ==> !SharesKey(row, rows[j]) && !SharesKey(rows[j], row);
      rows := rows[id := row];
      nextId := nextId + 1;
      r := Ok(id);
    }

    /** `rotateStorageId`: a fresh storage id for the row (none is written if
        the row does not exist). */
    method RotateStorageId(id: RecipientId) returns (sid: RawStorageId)
      requires Consistent()
      modifies this`rows, this`nextStorageId
      ensures Consistent() && (old(Valid()) ==> Valid())
      ensures sid == old(nextStorageId) && nextStorageId == sid + 1
      ensures rows == if id in old(rows) then old(rows)[id := old(rows)[id].(storageId := Some(sid))] else old(rows)
    {
      sid := nextStorageId;
      nextStorageId := nextStorageId + 1;
      if id in rows {
        var row := rows[id].(storageId := Some(sid));
        assert forall j :: j in rows && j != id ==> !SharesKey(row, rows[j]) && !SharesKey(rows[j], row) by {
          forall j | j in rows && j != id ensures !SharesKey(row, rows[j]) && !SharesKey(rows[j], row) {
            assert !SharesKey(rows[id], rows[j]);
          }
        }
        rows := rows[id := row];
      }
    }

    /** `getStorageId`: the row's storage id when it has one; otherwise a
        fresh one, assigned by rotation. */
    method GetStorageId(id: RecipientId) returns (sid: RawStorageId)
      requires Consistent()
      modifies this`rows, this`nextStorageId
      ensures Consistent() && (old(Valid()) ==> Valid())
      ensures id in old(rows) && old(rows)[id].storageId.Some? ==>
        sid == old(rows)[id].storageId.value && rows == old(rows) && nextStorageId == old(nextStorageId)
      ensures !(id in old(rows) && old(rows)[id].storageId.Some?) ==>
        && sid == old(nextStorageId) && nextStorageId == sid + 1
        && rows == if id in old(rows) then old(rows)[id := old(rows)[id].(storageId := Some(sid))] else old(rows)
    {
      if id in rows && rows[id].storageId.Some? {
        return rows[id].storageId.value;
      }
      sid := RotateStorageId(id);
    }

    /** `storeStorageRecord`: the storage id moves to the row, together with
        the record; whichever row held it before loses it. */
    method StoreStorageRecord(id: RecipientId, sid: RawStorageId, record: Option<Bytes>)
      requires Consistent()
      modifies this`rows, this`nextStorageId
      ensures Consistent() && (old(Valid()) ==> Valid())
      ensures rows == StoredRecordRows(old(rows), id, sid, record)
      ensures nextStorageId == if sid < old(nextStorageId) then old(nextStorageId) else sid + 1
    {
      var stored := StoredRecordRows(rows, id, sid, record);
      var bound := if sid < nextStorageId then nextStorageId else sid + 1;
      StoredRecordKeepsInvariant(rows, id, sid, record, nextStorageId);
      CacheSoundSameAddresses(recipientAddressCache, rows, stored);
      assert KeysUnique(stored) && StorageIdsBelow(stored, bound) && stored.Keys == rows.Keys;
      rows := stored;
      nextStorageId := bound;
    }

    /** `updateRecipientAddress`: evicts the row's cache entries, writes the
        four keys (failing when another row holds one of them) and rotates
        the storage id. */
    method UpdateRecipientAddress(id: RecipientId, address: RecipientAddress) returns (r: Result<()>)
      requires Consistent()
      modifies this`rows, this`recipientAddressCache, this`nextStorageId
      ensures Consistent() && (old(Valid()) ==> Valid())
      ensures recipientAddressCache == Evict(old(recipientAddressCache), id)
      ensures r.Err? <==> id in old(rows) && ClashesWithSome(old(rows) - {id}, address)
      ensures r.Err? ==> r.error == UniqueConstraintViolated && rows == old(rows) && nextStorageId == old(nextStorageId)
      ensures r.Ok? ==> nextStorageId == old(nextStorageId) + 1
      ensures r.Ok? && id in old(rows) ==>
        rows == old(rows)[id := WithAddress(old(rows)[id], address).(storageId := Some(old(nextStorageId)))]
      ensures r.Ok? && id !in old(rows) ==> rows == old(rows)
    {
      EvictKeepsSound(recipientAddressCache, rows, id);
      recipientAddressCache := Evict(recipientAddressCache, id);
      if id in rows {
        if j :| j in rows && j != id && AddressClashes(address, rows[j]) {
          assert j in rows - {id};
          return Err(UniqueConstraintViolated);
        }
        WriteAddress(id, address);
      }
      var _ := RotateStorageId(id);
      r := Ok(());
    }

    /** The UPDATE of the four keys, for an address no other row holds and a
        row the cache no longer names. */
    method WriteAddress(id: RecipientId, address: RecipientAddress)
      requires Consistent() && id in rows && !ClashesWithSome(rows - {id}, address)
      requires forall s :: s in recipientAddressCache ==> recipientAddressCache[s].id != id
      modifies this`rows
      ensures Consistent() && (old(Valid()) ==> Valid())
      ensures rows == old(rows)[id := WithAddress(old(rows)[id], address)]
    {
      AddressUpdateKeepsUnique(rows, id, address);
      CacheSoundOtherRow(recipientAddressCache, rows, id, WithAddress(rows[id], address));
      rows := rows[id := WithAddress(rows[id], address)];
    }

    /** `removeRecipientAddress`: evicts the row's cache entries and clears
        its four keys and its storage id. */
    method RemoveRecipientAddress(id: RecipientId)
      requires Consistent()
      modifies this`rows, this`recipientAddressCache
      ensures Consistent() && (old(Valid()) ==> Valid())
      ensures recipientAddressCache == Evict(old(recipientAddressCache), id)
      ensures rows ==
        if id in old(rows) then old(rows)[id := WithAddress(old(rows)[id], RecipientAddress(None, None, None, None)).(storageId := None)]
        else old(rows)
    {
      recipientAddressCache := Evict(recipientAddressCache, id);
      if id in rows {
        var row := WithAddress(rows[id], RecipientAddress(None, None, None, None)).(storageId := None);
        rows := rows[id := row];
      }
    }

    /** `deleteRecipient`: the DELETE alone. The cache is the caller's
        business: the invariant holds again once no entry names the row. */
    method DeleteRecipient(id: RecipientId)
      modifies this`rows
      ensures rows == old(rows) - {id}
      ensures old(Consistent()) && (forall s :: s in recipientAddressCache ==> recipientAddressCache[s].id != id) ==> Consistent()
      ensures old(Valid()) && (forall s :: s in recipientAddressCache ==> recipientAddressCache[s].id != id) ==> Valid()
    {
      rows := rows - {id};
    }

    /** An UPDATE by id of columns that hold no keys. */
    method UpdateColumns(id: RecipientId, row: Row)
      requires Consistent() && id in rows
      requires AddressOf(row) == AddressOf(rows[id]) && row.storageId == rows[id].storageId
      modifies this`rows
      ensures Consistent() && (old(Valid()) ==> Valid())
      ensures rows == old(rows)[id := row]
    {
      NarrowedRowKeepsUnique(rows, id, row);
      CacheSoundSameAddresses(recipientAddressCache, rows, rows[id := row]);
      rows := rows[id := row];
    }

    // -------------------------------------------------------------------------
    // Registration

    /** `markRegistered`: clears the unregistered timestamp. */
    method MarkRegistered(id: RecipientId)
      requires Consistent()
      modifies this`rows
      ensures Consistent() && (old(Valid()) ==> Valid())
      ensures rows == if id in old(rows) then old(rows)[id := old(rows)[id].(unregisteredTimestamp := None)] else old(rows)
    {
      if id in rows {
        UpdateColumns(id, rows[id].(unregisteredTimestamp := None));
      }
    }

    /** `markUnregistered(id)`: stamps the row with `now` unless it already has
        a timestamp, which then stays the first one. */
    method MarkUnregistered(id: RecipientId, now: int)
      requires Consistent()
      modifies this`rows
      ensures Consistent() && (old(Valid()) ==> Valid())
      ensures rows == if id in old(rows) then old(rows)[id := Stamp(old(rows)[id], now)] else old(rows)
      ensures id in rows ==>
        rows[id].unregisteredTimestamp == if old(rows)[id].unregisteredTimestamp.Some? then old(rows)[id].unregisteredTimestamp else Some(now)
    {
      if id in rows {
        UpdateColumns(id, Stamp(rows[id], now));
      }
    }

    /** `markUnregisteredAndSplitIfNecessary`: stamps the row; a row holding
        both an ACI and a PNI then gives up its PNI and number to a new row.
        Reading the address back fails when the row does not exist. */
    method MarkUnregisteredAndSplitIfNecessary(id: RecipientId, now: int) returns (r: Result<()>)
      requires Consistent()
      modifies this`rows, this`nextId, this`nextStorageId, this`recipientAddressCache
      ensures Consistent() && (old(Valid()) ==> Valid())
      ensures r.Err? <==> id !in old(rows)
      ensures r.Err? ==>
        && r.error == RecipientNotFound && rows == old(rows) && nextId == old(nextId)
        && nextStorageId == old(nextStorageId) && recipientAddressCache == old(recipientAddressCache)
      ensures r.Ok? && !NeedsSplit(old(rows)[id]) ==>
        && rows == old(rows)[id := Stamp(old(rows)[id], now)]
        && nextId == old(nextId) && nextStorageId == old(nextStorageId) && recipientAddressCache == old(recipientAddressCache)
      ensures r.Ok? && NeedsSplit(old(rows)[id]) ==>
        && rows == SplitRows(old(rows)[id := Stamp(old(rows)[id], now)], id, old(nextId), old(nextStorageId))
        && nextId == old(nextId) + 1 && nextStorageId == old(nextStorageId) + 1
        && recipientAddressCache == Evict(old(recipientAddressCache), id)
      ensures old(rows).Keys <= rows.Keys
      ensures forall j :: j in old(rows) && j != id ==> rows[j] == old(rows)[j]
      ensures r.Ok? ==> rows[id].unregisteredTimestamp == Stamp(old(rows)[id], now).unregisteredTimestamp
    {
      MarkUnregistered(id, now);
      if id !in rows {
        return Err(RecipientNotFound);
      }
      var address := AddressOf(rows[id]);
      if address.aci.Some? && address.pni.Some? {
        var numberAddress := FromPniAndNumber(address.pni.value, address.number);
        SplitSeparatesIdentities(rows, id, nextId, nextStorageId);
        KeptAddressClashesWithNone(rows, id);
        SplitRowsEffect(rows, id, nextId, nextStorageId);
        var u := UpdateRecipientAddress(id, RemoveIdentifiersFrom(address, numberAddress));
        var n := AddNewRecipient(numberAddress);
      }
      r := Ok(());
    }

    /** `markUnregistered(numbers)`: every row holding one of the numbers is
        marked and split as needed; the order of the numbers does not matter. */
    method MarkUnregisteredNumbers(numbers: set<string>, now: int)
      requires Consistent()
      modifies this`rows, this`nextId, this`nextStorageId, this`recipientAddressCache
      ensures Consistent() && (old(Valid()) ==> Valid())
      ensures MarkedSoFar(old(rows), rows, numbers)
    {
      var todo := numbers;
      while todo != {}
        invariant Consistent() && (old(Valid()) ==> Valid())
        invariant todo <= numbers
        invariant MarkedSoFar(old(rows), rows, numbers - todo)
        decreases todo
      {
        var n :| n in todo;
        assert numbers - (todo - {n}) == (numbers - todo) + {n};
        MarkUnregisteredNumber(n, now, old(rows), numbers - todo);
        todo := todo - {n};
      }
    }

    /** The loop body of `markUnregistered(numbers)`: the holder of one
        number, if any, is marked and split as needed, which extends the
        progress from the `done` numbers to `n`. */
    method MarkUnregisteredNumber(n: string, now: int, ghost rows0: map<RecipientId, Row>, ghost done: set<string>)
      requires Consistent() && MarkedSoFar(rows0, rows, done) && n !in done
      modifies this`rows, this`nextId, this`nextStorageId, this`recipientAddressCache
      ensures Consistent() && (old(Valid()) ==> Valid())
      ensures MarkedSoFar(rows0, rows, done + {n})
    {
      var found := FindByNumber(n);
      if found.Some? {
        var _ := MarkUnregisteredAndSplitIfNecessary(found.value.id, now);
        MarkedStep(rows0, old(rows), rows, done, n, found.value.id, now);
      } else {
        MarkedSkip(rows0, rows, done, n);
      }
    }

    // -------------------------------------------------------------------------
    // Sub-records

    /** `storeContact`: writes the contact columns and the unregistered
        timestamp (no contact writes the defaults), sends a contact carrying a
        timestamp through the split, and rotates the storage id last. */
    method StoreContact(id: RecipientId, c: Option<Contact>, now: int) returns (r: Result<()>)
      requires Consistent()
      modifies this`rows, this`nextId, this`nextStorageId, this`recipientAddressCache
      ensures Consistent() && (old(Valid()) ==> Valid())
      ensures r.Err? <==> id !in old(rows) && c.Some? && c.value.unregisteredTimestamp.Some?
      ensures r.Err? ==>
        && r.error == RecipientNotFound && rows == old(rows) && nextId == old(nextId)
        && nextStorageId == old(nextStorageId) && recipientAddressCache == old(recipientAddressCache)
      ensures r.Ok? && id !in old(rows) ==>
        && rows == old(rows) && nextId == old(nextId) && nextStorageId == old(nextStorageId) + 1
        && recipientAddressCache == old(recipientAddressCache)
      ensures r.Ok? && id in old(rows) ==>
        rows == ContactStoredRows(old(rows), id, c, old(nextId), old(nextStorageId))
      ensures r.Ok? && id in old(rows) && SplitsOnContact(old(rows)[id], c) ==>
        && nextId == old(nextId) + 1 && nextStorageId == old(nextStorageId) + 2
        && recipientAddressCache == Evict(old(recipientAddressCache), id)
      ensures r.Ok? && id in old(rows) && !SplitsOnContact(old(rows)[id], c) ==>
        && nextId == old(nextId) && nextStorageId == old(nextStorageId) + 1
        && recipientAddressCache == old(recipientAddressCache)
      ensures c.None? || c.value.unregisteredTimestamp.None? ==> OnlyRowChanged(old(rows), rows, id)
    {
      ghost var rows0 := rows;
      WriteContactColumns(id, c);
      if id !in rows {
        if c.Some? && c.value.unregisteredTimestamp.Some? {
          r := MarkUnregisteredAndSplitIfNecessary(id, now);
          return;
        }
        var _ := RotateStorageId(id);
        return Ok(());
      }
      if c.Some? && c.value.unregisteredTimestamp.Some? {
        MarkSplitAndRotate(id, c, now, rows0);
      } else {
        var _ := RotateStorageId(id);
      }
      r := Ok(());
    }

    /** The steps of `storeContact` after the UPDATE of a contact carrying a
        timestamp onto an existing row (from table `rows0`): the mark and
        split, then the rotation. */
    method MarkSplitAndRotate(id: RecipientId, c: Option<Contact>, now: int, ghost rows0: map<RecipientId, Row>)
      requires Consistent() && id in rows0 && nextId !in rows0
      requires c.Some? && c.value.unregisteredTimestamp.Some?
      requires rows == rows0[id := WriteContact(rows0[id], c)]
      requires Stamp(rows[id], 0) == rows[id] && rows[id := rows[id]] == rows
      requires NeedsSplit(rows[id]) <==> SplitsOnContact(rows0[id], c)
      modifies this`rows, this`nextId, this`nextStorageId, this`recipientAddressCache
      ensures Consistent() && (old(Valid()) ==> Valid())
      ensures rows == ContactStoredRows(rows0, id, c, old(nextId), old(nextStorageId))
      ensures SplitsOnContact(rows0[id], c) ==>
        && nextId == old(nextId) + 1 && nextStorageId == old(nextStorageId) + 2
        && recipientAddressCache == Evict(old(recipientAddressCache), id)
      ensures !SplitsOnContact(rows0[id], c) ==>
        && nextId == old(nextId) && nextStorageId == old(nextStorageId) + 1
        && recipientAddressCache == old(recipientAddressCache)
    {
      var _ := MarkUnregisteredAndSplitIfNecessary(id, now);
      ghost var rows2 := rows;
      var sid := RotateStorageId(id);
      ContactStoredSteps(rows0, old(rows), rows2, rows, id, c, now, old(nextId), old(nextStorageId), sid);
    }

    /** The UPDATE of `storeContact`. A contact carrying a timestamp leaves the
        row stamped and ready for the split exactly when the row holds both
        service ids. */
    method WriteContactColumns(id: RecipientId, c: Option<Contact>)
      requires Consistent()
      modifies this`rows
      ensures Consistent() && (old(Valid()) ==> Valid())
      ensures rows == if id in old(rows) then old(rows)[id := WriteContact(old(rows)[id], c)] else old(rows)
      ensures id in rows && c.Some? && c.value.unregisteredTimestamp.Some? ==>
        && Stamp(rows[id], 0) == rows[id] && rows[id := rows[id]] == rows
        && (NeedsSplit(rows[id]) <==> SplitsOnContact(old(rows)[id], c))
    {
      if id in rows {
        WriteContactFrame(rows[id], c);
        UpdateColumns(id, WriteContact(rows[id], c));
      }
    }

    /** `storeProfile`: writes the profile columns (no profile clears them) and
        rotates the storage id. */
    method StoreProfile(id: RecipientId, p: Option<Profile>)
      requires Consistent()
      modifies this`rows, this`nextStorageId
      ensures Consistent() && (old(Valid()) ==> Valid())
      ensures rows == if id in old(rows) then old(rows)[id := WriteProfile(old(rows)[id], p).(storageId := Some(old(nextStorageId)))] else old(rows)
      ensures nextStorageId == old(nextStorageId) + 1
      ensures GetProfile(id) == if id in old(rows) then p else None
      ensures OnlyRowChanged(old(rows), rows, id)
    {
      if id in rows {
        ProfileRoundTrip(rows[id], p);
        UpdateColumns(id, WriteProfile(rows[id], p));
      }
      var _ := RotateStorageId(id);
    }

    /** `storeProfileKey`: skipped when the guard says so; otherwise writes the
        key, clears the credential, resets the profile timestamp on request and
        rotates the storage id. */
    method StoreProfileKey(id: RecipientId, key: Option<ProfileKey>, resetProfile: bool, self: SelfAccount)
      requires Consistent()
      modifies this`rows, this`nextStorageId
      ensures Consistent() && (old(Valid()) ==> Valid())
      ensures SkipsProfileKeyWrite(key, old(GetProfileKey(id, self)), old(GetProfile(id))) ==>
        rows == old(rows) && nextStorageId == old(nextStorageId)
      ensures !SkipsProfileKeyWrite(key, old(GetProfileKey(id, self)), old(GetProfile(id))) ==>
        && nextStorageId == old(nextStorageId) + 1
        && rows == if id in old(rows) then old(rows)[id := WriteProfileKey(old(rows)[id], key, resetProfile).(storageId := Some(old(nextStorageId)))] else old(rows)
      ensures OnlyRowChanged(old(rows), rows, id)
    {
      if SkipsProfileKeyWrite(key, GetProfileKey(id, self), GetProfile(id)) {
        return;
      }
      if id in rows {
        UpdateColumns(id, WriteProfileKey(rows[id], key, resetProfile));
      }
      var _ := RotateStorageId(id);
    }

    /** `storeExpiringProfileKeyCredential`: the credential column alone. */
    method StoreCredential(id: RecipientId, credential: Option<ProfileKeyCredential>)
      requires Consistent()
      modifies this`rows
      ensures Consistent() && (old(Valid()) ==> Valid())
      ensures rows == if id in old(rows) then old(rows)[id := old(rows)[id].(profileKeyCredential := credential)] else old(rows)
      ensures GetCredential(id) == if id in old(rows) then credential else None
      ensures OnlyRowChanged(old(rows), rows, id)
    {
      if id in rows {
        UpdateColumns(id, rows[id].(profileKeyCredential := credential));
      }
    }

    /** The four writes of `deleteRecipientData` that clear the row's data:
        `storeContact(id, null)` (with no contact there is no split),
        `storeProfile(id, null)`, `storeProfileKey(id, null, false)` (a null
        key is never skipped) and `storeExpiringProfileKeyCredential(id, null)`. */
    method ClearRecipientData(id: RecipientId, self: SelfAccount)
      requires Consistent()
      modifies this`rows, this`nextStorageId
      ensures Consistent() && (old(Valid()) ==> Valid())
      ensures OnlyRowChanged(old(rows), rows, id)
      ensures id in rows ==>
        && ContactOf(rows[id]).None? && ProfileOf(rows[id]).None?
        && rows[id].profileKey.None? && rows[id].profileKeyCredential.None?
        && rows[id].unregisteredTimestamp.None?
    {
      ghost var rows0 := rows;
      WriteContactColumns(id, None);
      var _ := RotateStorageId(id);
      ghost var rows1 := rows;
      StoreProfile(id, None);
      OnlyRowChangedTrans(rows0, rows1, rows, id);
      ghost var rows2 := rows;
      StoreProfileKey(id, None, false, self);
      OnlyRowChangedTrans(rows0, rows2, rows, id);
      ghost var rows3 := rows;
      StoreCredential(id, None);
      OnlyRowChangedTrans(rows0, rows3, rows, id);
    }

    /** `deleteRecipientData`: evicts the row's cache entries, clears its
        contact, profile, profile key and credential, and deletes it. */
    method DeleteRecipientData(id: RecipientId, self: SelfAccount)
      requires Consistent()
      modifies this`rows, this`nextStorageId, this`recipientAddressCache
      ensures Consistent() && (old(Valid()) ==> Valid())
      ensures rows == old(rows) - {id}
      ensures recipientAddressCache == Evict(old(recipientAddressCache), id)
    {
      EvictKeepsSound(recipientAddressCache, rows, id);
      recipientAddressCache := Evict(recipientAddressCache, id);
      ClearRecipientData(id, self);
      ghost var cleared := rows;
      DeleteRecipient(id);
      DeleteAfterUpdates(old(rows), cleared, id);
    }

    // -------------------------------------------------------------------------
    // Bulk storage-id updates

    /** `setMissingStorageIds`: each row with no storage id that is not
        unregistered receives a fresh one. */
    method SetMissingStorageIds()
      requires Consistent()
      modifies this`rows, this`nextStorageId
      ensures Consistent() && (old(Valid()) ==> Valid())
      ensures AssignedSoFar(old(rows), rows, {}, old(nextStorageId))
    {
      var missing := set i | i in rows && NeedsStorageId(rows[i]);
      var todo := missing;
      while todo != {}
        invariant Consistent() && (old(Valid()) ==> Valid())
        invariant todo <= missing && old(nextStorageId) <= nextStorageId
        invariant AssignedSoFar(old(rows), rows, todo, old(nextStorageId))
        decreases todo
      {
        var i :| i in todo;
        ghost var before := rows;
        var sid := RotateStorageId(i);
        AssignedStep(old(rows), before, todo, old(nextStorageId), i, sid);
        todo := todo - {i};
      }
    }

    /** The single-row update of the method below: drops row `id`'s storage id. */
    method ClearStorageId(id: RecipientId)
      requires Consistent() && id in rows
      modifies this`rows
      ensures rows == old(rows)[id := old(rows)[id].(storageId := None)]
      ensures Consistent() && (old(Valid()) ==> Valid())
    {
      var row := rows[id].(storageId := None);
      NarrowedRowKeepsUnique(rows, id, row);
      CacheSoundSameAddresses(recipientAddressCache, rows, rows[id := row]);
      rows := rows[id := row];
    }

    /** `removeStorageIdsFromLocalOnlyUnregisteredRecipients`: clears each
        given storage id from the row holding it when that row is
        unregistered, and counts the rows cleared. */
    method RemoveStorageIdsFromLocalOnlyUnregisteredRecipients(sids: seq<RawStorageId>) returns (count: nat)
      requires Consistent()
      modifies this`rows
      ensures Consistent() && (old(Valid()) ==> Valid())
      ensures rows == ClearedRows(old(rows), sids)
      ensures count == |ClearedIds(old(rows), sids)|
    {
      count := 0;
      var k := 0;
      ghost var rows0 := rows;
      assert ClearedRows(rows0, sids[..0]) == rows;
      while k < |sids|
        invariant 0 <= k <= |sids|
        invariant Consistent() && (old(Valid()) ==> Valid())
        invariant rows == ClearedRows(rows0, sids[..k])
        invariant count == |ClearedIds(rows0, sids[..k])|
      {
        var s := sids[k];
        ghost var before := rows;
        ghost var done := sids[..k];
        ghost var done' := sids[..k + 1];
        if j :| j in rows && rows[j].storageId == Some(s) && rows[j].unregisteredTimestamp.Some? {
          ClearStorageId(j);
          count := count + 1;
          ClearedStep(rows0, done, s, done', before, Some(j), rows);
        } else {
          ClearedStep(rows0, done, s, done', before, None, rows);
        }
        k := k + 1;
      }
      assert sids[..k] == sids;
    }

    // -------------------------------------------------------------------------
    // Resolution

    /** The three lookups of `resolveRecipientLocked(address)`, in order. */
    method FindByPriority(address: RecipientAddress) returns (o: Option<RecipientId>)
      requires Consistent()
      modifies this`recipientAddressCache
      ensures Consistent() && (old(Valid()) ==> Valid())
      ensures o == LookupByPriority(rows, address)
      ensures CacheExtends(old(recipientAddressCache), recipientAddressCache)
    {
      o := None;
      if address.aci.Some? {
        var byAci := FindByServiceId(Aci(address.aci.value));
        if byAci.Some? {
          return Some(byAci.value.id);
        }
      }
      if address.pni.Some? {
        var byPni := FindByServiceId(Pni(address.pni.value));
        if byPni.Some? {
          return Some(byPni.value.id);
        }
      }
      if address.number.Some? {
        var byNumber := FindByNumber(address.number.value);
        if byNumber.Some? {
          return Some(byNumber.value.id);
        }
      }
    }

    /** `resolveRecipientLocked(address)`: the row holding the ACI, else the
        one holding the PNI, else the one holding the number; on a miss a new
        row. */
    method ResolveRecipientLocked(address: RecipientAddress) returns (r: Result<RecipientId>)
      requires Consistent()
      modifies this`rows, this`nextId, this`recipientAddressCache
      ensures Consistent() && (old(Valid()) ==> Valid())
      ensures r == ResolvedId(old(rows), old(nextId), address)
      ensures rows == ResolvedRows(old(rows), old(nextId), address)
      ensures nextId == if r.Ok? && r.value !in old(rows) then old(nextId) + 1 else old(nextId)
      ensures CacheExtends(old(recipientAddressCache), recipientAddressCache)
    {
      var found := FindByPriority(address);
      if found.Some? {
        return Ok(found.value);
      }
      match ServiceIdOf(address)
      case None =>
        r := AddNewRecipient(address);
      case Some(s) =>
        r := AddNewRecipient(FromServiceId(s));
    }

    /** `resolveRecipientLocked(serviceId)`: the holder of the service id, or a
        new row holding only it. The insert cannot fail. */
    method ResolveServiceIdLocked(s: ServiceId) returns (id: RecipientId)
      requires Consistent()
      modifies this`rows, this`nextId, this`recipientAddressCache
      ensures Consistent() && (old(Valid()) ==> Valid())
      ensures Ok(id) == ResolvedId(old(rows), old(nextId), FromServiceId(s))
      ensures rows == ResolvedRows(old(rows), old(nextId), FromServiceId(s))
      ensures CacheExtends(old(recipientAddressCache), recipientAddressCache)
    {
      var o := FindByServiceId(s);
      if o.None? {
        MissInsertsOneRow(rows, nextId, FromServiceId(s));
        var r := AddNewRecipient(FromServiceId(s));
        id := r.value;
      } else {
        id := o.value.id;
      }
    }

    /** `resolveRecipientLocked(number)`: the holder of the number, or a new
        row holding only it. The insert cannot fail. */
    method ResolveNumberLocked(number: string) returns (id: RecipientId)
      requires Consistent()
      modifies this`rows, this`nextId
      ensures Consistent() && (old(Valid()) ==> Valid())
      ensures Ok(id) == ResolvedId(old(rows), old(nextId), FromNumber(number))
      ensures rows == ResolvedRows(old(rows), old(nextId), FromNumber(number))
    {
      var o := FindByNumber(number);
      if o.None? {
        var r := AddNewRecipient(FromNumber(number));
        id := r.value;
      } else {
        id := o.value.id;
      }
    }

    /** `resolveRecipient(serviceId)`: a cache hit answers without touching
        the table; otherwise as `resolveRecipientLocked`. */
    method ResolveRecipient(s: ServiceId) returns (id: RecipientId)
      requires Consistent()
      modifies this`rows, this`nextId, this`recipientAddressCache
      ensures Consistent() && (old(Valid()) ==> Valid())
      ensures Ok(id) == ResolvedId(old(rows), old(nextId), FromServiceId(s))
      ensures rows == ResolvedRows(old(rows), old(nextId), FromServiceId(s))
      ensures s in old(recipientAddressCache) ==>
        && id == old(recipientAddressCache)[s].id
        && rows == old(rows) && nextId == old(nextId) && recipientAddressCache == old(recipientAddressCache)
    {
      if s in recipientAddressCache {
        id := recipientAddressCache[s].id;
        LookupUnique(rows, ServiceColumn(s), id);
        return;
      }
      id := ResolveServiceIdLocked(s);
    }

    /** `getActualRecipientId`: follows the redirects to an id that is not
        merged away. */
    method GetActualRecipientId(id: RecipientId) returns (r: RecipientId)
      requires Consistent()
      ensures r == Resolve(recipientsMerged, mergedAt, mergeClock, id)
      ensures r !in recipientsMerged
      ensures id !in recipientsMerged ==> r == id
    {
      r := id;
      while r in recipientsMerged
        invariant Resolve(recipientsMerged, mergedAt, mergeClock, r) == Resolve(recipientsMerged, mergedAt, mergeClock, id)
        decreases if r in recipientsMerged then mergeClock - mergedAt[r] else 0
      {
        r := recipientsMerged[r];
      }
    }

    // -------------------------------------------------------------------------
    // Merging

    /** `mergeRecipientsLocked`: every piece of data the winner lacks (contact,
        profile key, credential, profile) is copied from the loser, then the
        loser is recorded as merged into the winner. Neither row is deleted
        here, and nothing the winner already has is overwritten. */
    method MergeRecipientsLocked(winner: RecipientId, loser: RecipientId, self: SelfAccount, now: int)
      requires Consistent()
      requires winner in rows && loser in rows && winner != loser && winner !in recipientsMerged
      modifies this`rows, this`nextId, this`nextStorageId, this`recipientAddressCache
      modifies this`recipientsMerged, this`mergedAt, this`mergeClock
      ensures Consistent()
      ensures recipientsMerged == old(recipientsMerged)[loser := winner]
      ensures DataMerged(old(rows), rows, winner, loser, self, old(nextId)) && old(nextId) <= nextId
    {
      MergeData(winner, loser, self, now);
      RecordRedirect(loser, winner);
    }

    /** The four copying blocks of `mergeRecipientsLocked`. */
    method MergeData(winner: RecipientId, loser: RecipientId, self: SelfAccount, now: int)
      requires Consistent()
      requires winner in rows && loser in rows && winner != loser
      modifies this`rows, this`nextId, this`nextStorageId, this`recipientAddressCache
      ensures Consistent()
      ensures DataMerged(old(rows), rows, winner, loser, self, old(nextId)) && old(nextId) <= nextId
    {
      MergeContact(winner, loser, now);
      MergeRest(winner, loser, self, old(rows), old(nextId));
    }

    /** The profile-key, credential and profile blocks, after the contact
        block took the table from `rows0` to the current one. */
    method MergeRest(winner: RecipientId, loser: RecipientId, self: SelfAccount, ghost rows0: map<RecipientId, Row>, ghost nid: RecipientId)
      requires Consistent()
      requires winner in rows && loser in rows && winner != loser
      requires ContactBlock(rows0, rows, winner, loser, nid)
      modifies this`rows, this`nextStorageId
      ensures Consistent()
      ensures DataMerged(rows0, rows, winner, loser, self, nid)
    {
      ghost var rows1 := rows;
      MergeProfileKey(winner, loser, self);
      ghost var rows2 := rows;
      MergeCredential(winner, loser);
      ghost var rows3 := rows;
      MergeProfile(winner, loser);
      RestSteps(rows1, rows2, rows3, rows, winner, loser, self);
      MergeSteps(rows0, rows1, rows, winner, loser, self, nid);
    }

    /** `recipientsMerged.put(loser, winner)`. */
    method RecordRedirect(loser: RecipientId, winner: RecipientId)
      requires Consistent() && loser in rows && winner !in recipientsMerged && winner != loser
      modifies this`recipientsMerged, this`mergedAt, this`mergeClock
      ensures Consistent()
      ensures recipientsMerged == old(recipientsMerged)[loser := winner]
    {
      RedirectKeepsRanked(recipientsMerged, mergedAt, mergeClock, loser, winner);
      recipientsMerged := recipientsMerged[loser := winner];
      mergedAt := mergedAt[loser := mergeClock];
      mergeClock := mergeClock + 1;
    }

    /** First block of `mergeRecipientsLocked`: a winner without a contact
        receives the loser's (or the defaults, when the loser has none). */
    method MergeContact(winner: RecipientId, loser: RecipientId, now: int)
      requires Consistent()
      requires winner in rows && loser in rows && winner != loser
      modifies this`rows, this`nextId, this`nextStorageId, this`recipientAddressCache
      ensures Consistent() && old(nextId) <= nextId
      ensures ContactBlock(old(rows), rows, winner, loser, old(nextId))
    {
      var contact := GetContact(winner);
      if contact.None? {
        var loserContact := GetContact(loser);
        ContactStoredEffect(rows, winner, loserContact, nextId, nextStorageId);
        var _ := StoreContact(winner, loserContact, now);
      }
    }

    /** Second block: a winner without a profile key receives the loser's; the
        write clears the winner's credential. */
    method MergeProfileKey(winner: RecipientId, loser: RecipientId, self: SelfAccount)
      requires Consistent()
      requires winner in rows && loser in rows && winner != loser
      modifies this`rows, this`nextStorageId
      ensures Consistent()
      ensures KeyBlock(old(rows), rows, winner, loser, self)
    {
      var key := GetProfileKey(winner, self);
      if key.None? {
        var loserKey := GetProfileKey(loser, self);
        WriteProfileKeyEffect(rows[winner], loserKey, false);
        StoreProfileKey(winner, loserKey, false, self);
      }
    }

    /** Third block: a winner without a credential receives the loser's. */
    method MergeCredential(winner: RecipientId, loser: RecipientId)
      requires Consistent()
      requires winner in rows && loser in rows && winner != loser
      modifies this`rows
      ensures Consistent()
      ensures CredentialBlock(old(rows), rows, winner, loser)
    {
      var credential := GetCredential(winner);
      if credential.None? {
        StoreCredential(winner, GetCredential(loser));
      }
    }

    /** Fourth block: a winner without a profile receives the loser's. */
    method MergeProfile(winner: RecipientId, loser: RecipientId)
      requires Consistent()
      requires winner in rows && loser in rows && winner != loser
      modifies this`rows, this`nextStorageId
      ensures Consistent()
      ensures ProfileBlock(old(rows), rows, winner, loser)
    {
      var profile := GetProfile(winner);
      if profile.None? {
        var loserProfile := GetProfile(loser);
        WriteProfileFrame(rows[winner], loserProfile);
        StoreProfile(winner, loserProfile);
      }
    }

    /** `mergeRecipients`: each loser is deleted and evicted from the cache.
        Once every live redirect key is among the losers, `Valid()` holds
        again. */
    method MergeRecipients(winner: RecipientId, losers: seq<RecipientId>)
      requires Consistent()
      modifies this`rows, this`recipientAddressCache
      ensures Consistent()
      ensures rows == old(rows) - Ids(losers)
      ensures recipientAddressCache == EvictAll(old(recipientAddressCache), Ids(losers))
      ensures (forall k :: k in recipientsMerged && k in old(rows) ==> k in losers) ==> Valid()
    {
      var i := 0;
      assert losers[..0] == [];
      while i < |losers|
        invariant 0 <= i <= |losers|
        invariant Consistent()
        invariant rows == old(rows) - Ids(losers[..i])
        invariant recipientAddressCache == EvictAll(old(recipientAddressCache), Ids(losers[..i]))
      {
        RemovedStep(old(rows), old(recipientAddressCache), losers, i);
        RemoveLoser(losers[i]);
        i := i + 1;
      }
      assert losers[..i] == losers;
    }

    /** The loop body of `mergeRecipients`: one loser deleted and its cache
        entries evicted. */
    method RemoveLoser(loser: RecipientId)
      requires Consistent()
      modifies this`rows, this`recipientAddressCache
      ensures Consistent()
      ensures rows == old(rows) - {loser}
      ensures recipientAddressCache == Evict(old(recipientAddressCache), loser)
    {
      EvictKeepsSound(recipientAddressCache, rows, loser);
      DeleteKeepsUnique(rows, loser);
      DeleteRecipient(loser);
      recipientAddressCache := Evict(recipientAddressCache, loser);
    }

    /** One write of the merge helper, through the store method
        `HelperStore` forwards it to. */
    method ApplyHelperWrite(w: HelperWrite) returns (r: Result<()>)
      requires Consistent()
      modifies this`rows, this`nextId, this`nextStorageId, this`recipientAddressCache
      ensures Consistent() && (old(Valid()) ==> Valid())
      ensures match HelperStep(Table(old(rows), old(nextId), old(nextStorageId)), w)
        case Ok(t) => r == Ok(()) && Table(rows, nextId, nextStorageId) == t
        case Err(e) => r == Err(e)
    {
      match w
      case AddRecipient(a) =>
        var id := AddNewRecipient(a);
        r := if id.Ok? then Ok(()) else Err(id.error);
      case UpdateAddress(id, a) =>
        var updated := UpdateRecipientAddress(id, a);
        r := if updated.Ok? then Ok(()) else Err(updated.error);
      case RemoveAddress(id) =>
        RemoveRecipientAddress(id);
        r := Ok(());
    }

    /** The merge helper's writes in order, stopping at the first failure,
        which the exception carries out of `resolveRecipientTrustedLocked`. */
    method ApplyHelperWrites(ws: seq<HelperWrite>) returns (r: Result<()>)
      requires Consistent()
      modifies this`rows, this`nextId, this`nextStorageId, this`recipientAddressCache
      ensures Consistent() && (old(Valid()) ==> Valid())
      ensures match HelperWrites(Table(old(rows), old(nextId), old(nextStorageId)), ws)
        case Ok(t) => r == Ok(()) && Table(rows, nextId, nextStorageId) == t
        case Err(e) => r == Err(e)
    {
      var i := 0;
      while i < |ws|
        invariant 0 <= i <= |ws|
        invariant Consistent() && (old(Valid()) ==> Valid())
        invariant HelperWrites(Table(old(rows), old(nextId), old(nextStorageId)), ws)
               == HelperWrites(Table(rows, nextId, nextStorageId), ws[i..])
      {
        assert ws[i..][1..] == ws[i + 1..];
        r := ApplyHelperWrite(ws[i]);
        if r.Err? {
          return;
        }
        i := i + 1;
      }
      r := Ok(());
    }

    /** `resolveRecipientTrustedLocked`. An address with a single key, or one
        matching the local account's (when it is not resolved as the local
        account), is resolved directly. Otherwise the merge helper decides:
        its table writes (`writes`) are made through the store's own
        methods, then its answer (`winner`, `losers`) is taken: the winner is
        marked registered and every loser merged into it. The helper's
        decision procedure is not modelled; what the store needs of its
        answer, on the table the writes leave, is the precondition. */
    method ResolveRecipientTrustedLocked(address: RecipientAddress, isSelf: bool, self: SelfAccount,
                                         writes: seq<HelperWrite>, winner: RecipientId, losers: seq<RecipientId>, now: int)
      returns (r: Result<(RecipientId, seq<RecipientId>)>)
      requires Consistent()
      requires !ResolvesDirectly(address, isSelf, self) ==>
        HelperAnswerFits(HelperWrites(Table(rows, nextId, nextStorageId), writes), recipientsMerged, winner, losers)
      modifies this`rows, this`nextId, this`nextStorageId, this`recipientAddressCache
      modifies this`recipientsMerged, this`mergedAt, this`mergeClock
      ensures Consistent()
      ensures ResolvesDirectly(address, isSelf, self) ==>
        && rows == ResolvedRows(old(rows), old(nextId), address)
        && recipientsMerged == old(recipientsMerged)
        && (old(Valid()) ==> Valid())
        && match ResolvedId(old(rows), old(nextId), address)
           case Ok(id) => r == Ok((id, []))
           case Err(e) => r == Err(e)
      ensures !ResolvesDirectly(address, isSelf, self) ==>
        match HelperWrites(Table(old(rows), old(nextId), old(nextStorageId)), writes)
        case Err(e) => r == Err(e) && recipientsMerged == old(recipientsMerged) && (old(Valid()) ==> Valid())
        case Ok(t) =>
          && r == Ok((winner, losers))
          && winner in rows
          && RedirectedSoFar(old(recipientsMerged), recipientsMerged, winner, losers)
          && OthersKept(t.rows, rows, winner, t.nextId)
          && (old(Valid()) ==> forall k :: k in recipientsMerged && k in rows ==> k in losers)
    {
      if ResolvesDirectly(address, isSelf, self) {
        var id := ResolveRecipientLocked(address);
        if id.Ok? {
          r := Ok((id.value, []));
        } else {
          r := Err(id.error);
        }
        return;
      }
      var written := ApplyHelperWrites(writes);
      if written.Err? {
        return Err(written.error);
      }
      ghost var helped := rows;
      ghost var nid := nextId;
      ghost var merged0 := recipientsMerged;
      MarkRegistered(winner);
      ghost var marked := rows;
      MergeLosers(winner, losers, self, now);
      OthersKeptTrans(helped, marked, rows, winner, nid, nid);
      forall k | old(Valid()) && k in recipientsMerged && k !in losers ensures k !in rows {
        assert k in merged0 && k !in helped;
      }
      r := Ok((winner, losers));
    }

    /** The loop of `resolveRecipientTrustedLocked`: each loser in turn is
        merged into the winner. */
    method MergeLosers(winner: RecipientId, losers: seq<RecipientId>, self: SelfAccount, now: int)
      requires Consistent()
      requires winner in rows && winner !in recipientsMerged && forall l :: l in losers ==> l in rows && l != winner
      modifies this`rows, this`nextId, this`nextStorageId, this`recipientAddressCache
      modifies this`recipientsMerged, this`mergedAt, this`mergeClock
      ensures Consistent() && winner in rows
      ensures OthersKept(old(rows), rows, winner, old(nextId))
      ensures RedirectedSoFar(old(recipientsMerged), recipientsMerged, winner, losers)
    {
      var i := 0;
      while i < |losers|
        invariant 0 <= i <= |losers|
        invariant Consistent()
        invariant winner in rows && winner !in recipientsMerged
        invariant OthersKept(old(rows), rows, winner, old(nextId)) && old(nextId) <= nextId
        invariant RedirectedSoFar(old(recipientsMerged), recipientsMerged, winner, losers[..i])
      {
        ghost var before := rows;
        ghost var nidBefore := nextId;
        assert losers[..i + 1] == losers[..i] + [losers[i]];
        RedirectedStep(old(recipientsMerged), recipientsMerged, winner, losers[..i], losers[i]);
        MergeRecipientsLocked(winner, losers[i], self, now);
        OthersKeptTrans(old(rows), before, rows, winner, old(nextId), nidBefore);
        i := i + 1;
      }
      assert losers[..i] == losers;
    }

    /** `resolveRecipientTrusted`: the locked resolution, then the deletion of
        the losers, which restores `Valid()`. */
    method ResolveRecipientTrusted(address: RecipientAddress, isSelf: bool, self: SelfAccount,
                                   writes: seq<HelperWrite>, winner: RecipientId, losers: seq<RecipientId>, now: int)
      returns (r: Result<RecipientId>)
      requires Valid()
      requires !ResolvesDirectly(address, isSelf, self) ==>
        HelperAnswerFits(HelperWrites(Table(rows, nextId, nextStorageId), writes), recipientsMerged, winner, losers)
      modifies this`rows, this`nextId, this`nextStorageId, this`recipientAddressCache
      modifies this`recipientsMerged, this`mergedAt, this`mergeClock
      ensures Valid()
      ensures ResolvesDirectly(address, isSelf, self) ==>
        r == ResolvedId(old(rows), old(nextId), address) && rows == ResolvedRows(old(rows), old(nextId), address)
      ensures !ResolvesDirectly(address, isSelf, self) ==>
        match HelperWrites(Table(old(rows), old(nextId), old(nextStorageId)), writes)
        case Err(e) => r == Err(e)
        case Ok(_) =>
          && r == Ok(winner) && winner in rows
          && (forall l :: l in losers ==> l !in rows && l in recipientsMerged && recipientsMerged[l] == winner)
    {
      var pair := ResolveRecipientTrustedLocked(address, isSelf, self, writes, winner, losers, now);
      if pair.Err? {
        return Err(pair.error);
      }
      if |pair.value.1| > 0 {
        MergeRecipients(pair.value.0, pair.value.1);
      }
      r := Ok(pair.value.0);
    }
  }
}
