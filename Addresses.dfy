/**
 Recipient identities. A recipient is known by up to four keys: the stable
 account identifier (ACI), the phone-number identifier (PNI), the phone number
 and the username. `RecipientAddress` carries any subset of them.

 The source's `RecipientAddress` record (with `serviceId`, `hasSingleIdentifier`,
 `matches` and `removeIdentifiersFrom`) is not among the modelled files; the
 functions below give each the behaviour its callers in the recipient store
 and the storage validator rely on.
 */
module Addresses {
  import opened Wrappers

  /** ACIs and PNIs are UUIDs; the model only compares them. */
  type Uuid = nat

  /** A service identifier: an ACI or a PNI. The two kinds never compare equal. */
  datatype ServiceId = Aci(uuid: Uuid) | Pni(uuid: Uuid)

  datatype RecipientAddress = RecipientAddress(
    aci: Option<Uuid>,
    pni: Option<Uuid>,
    number: Option<string>,
    username: Option<string>)

  function Count<T>(o: Option<T>): nat { if o.Some? then 1 else 0 }

  /** The number of keys the address carries. */
  function IdentifierCount(a: RecipientAddress): nat {
    Count(a.aci) + Count(a.pni) + Count(a.number) + Count(a.username)
  }

  predicate HasSingleIdentifier(a: RecipientAddress) {
    IdentifierCount(a) == 1
  }

  /** The address's service identifier: its ACI if it has one, else its PNI. */
  function ServiceIdOf(a: RecipientAddress): Option<ServiceId> {
    if a.aci.Some? then Some(Aci(a.aci.value))
    else if a.pni.Some? then Some(Pni(a.pni.value))
    else None
  }

  /** `new RecipientAddress(serviceId)`: the address holding only that service identifier. */
  function FromServiceId(s: ServiceId): (a: RecipientAddress)
    ensures HasSingleIdentifier(a) && ServiceIdOf(a) == Some(s)
  {
    match s
    case Aci(u) => RecipientAddress(Some(u), None, None, None)
    case Pni(u) => RecipientAddress(None, Some(u), None, None)
  }

  /** `new RecipientAddress(number)`: the address holding only a phone number. */
  function FromNumber(number: string): (a: RecipientAddress)
    ensures HasSingleIdentifier(a) && ServiceIdOf(a) == None
  {
    RecipientAddress(None, None, Some(number), None)
  }

  /** `new RecipientAddress(pni, number)`, the number being nullable. */
  function FromPniAndNumber(pni: Uuid, number: Option<string>): RecipientAddress {
    RecipientAddress(None, Some(pni), number, None)
  }

  /** Two addresses match when they share a present ACI, PNI or number. */
  predicate Matches(a: RecipientAddress, other: RecipientAddress) {
    || (a.aci.Some? && a.aci == other.aci)
    || (a.pni.Some? && a.pni == other.pni)
    || (a.number.Some? && a.number == other.number)
  }

  /** Drops from `a` every key on which `other` agrees with it (absent keys
      compare equal, as `Optional.equals` does). */
  function RemoveIdentifiersFrom(a: RecipientAddress, other: RecipientAddress): (r: RecipientAddress)
    // what is left is a part of `a` ...
    ensures r.aci.Some? ==> r.aci == a.aci
    ensures r.pni.Some? ==> r.pni == a.pni
    ensures r.number.Some? ==> r.number == a.number
    ensures r.username.Some? ==> r.username == a.username
    // ... that shares no present key with `other`
    ensures r.aci.Some? ==> r.aci != other.aci
    ensures r.pni.Some? ==> r.pni != other.pni
    ensures r.number.Some? ==> r.number != other.number
    ensures r.username.Some? ==> r.username != other.username
    // and a key of `a` that `other` lacks survives
    ensures a.aci.Some? && other.aci.None? ==> r.aci == a.aci
    ensures a.username.Some? && other.username.None? ==> r.username == a.username
  {
    RecipientAddress(
      if other.aci == a.aci then None else a.aci,
      if other.pni == a.pni then None else a.pni,
      if other.number == a.number then None else a.number,
      if other.username == a.username then None else a.username)
  }
}
