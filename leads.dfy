/**
 * Lead deduplication (`find_or_create_lead`): three separate lookups, by external id, then
 * phone, then email, each tried only when its key is given; the first hit is returned, and a
 * new lead is stored only when every given key missed.
 */
module LeadResolution {
  import opened Wrappers
  import opened Models

  /** The identity a contact arrives with: the `lead_*` fields of the request. */
  datatype Identity = Identity(
    externalId: Option<string>,
    phone: Option<string>,
    email: Option<string>,
    name: Option<string>)

  datatype LeadKey = ExternalId | Phone | Email

  /** Why storing a new lead can fail: the unique constraint on `external_id` rejects the insert. */
  datatype LeadError = DuplicateExternalId

  function KeyOf(l: Lead, k: LeadKey): Option<string> {
    match k
    case ExternalId => l.externalId
    case Phone => l.phone
    case Email => l.email
  }

  function Asked(who: Identity, k: LeadKey): Option<string> {
    match k
    case ExternalId => who.externalId
    case Phone => who.phone
    case Email => who.email
  }

  /** Python truthiness of an optional string: present and not empty. */
  predicate Given(v: Option<string>) {
    v.Some? && v.value != ""
  }

  /** One equality lookup on one column; the first matching row. */
  function FindBy(leads: seq<Lead>, k: LeadKey, v: string): (found: Option<Lead>)
    ensures found.Some? ==> found.value in leads && KeyOf(found.value, k) == Some(v)
    ensures found.None? <==> forall l :: l in leads ==> KeyOf(l, k) != Some(v)
  {
    if leads == [] then None
    else if KeyOf(leads[0], k) == Some(v) then Some(leads[0])
    else
      assert leads == [leads[0]] + leads[1..];
      FindBy(leads[1..], k, v)
  }

  /** The lookup for one key, skipped (a miss) when that key is not given. */
  function Lookup(leads: seq<Lead>, who: Identity, k: LeadKey): Option<Lead> {
    if Given(Asked(who, k)) then FindBy(leads, k, Asked(who, k).value) else None
  }

  /** The existing lead the three lookups settle on, or None when all of them miss. */
  function Resolve(leads: seq<Lead>, who: Identity): (found: Option<Lead>)
    ensures found.Some? ==> found.value in leads
  {
    if Lookup(leads, who, ExternalId).Some? then Lookup(leads, who, ExternalId)
    else if Lookup(leads, who, Phone).Some? then Lookup(leads, who, Phone)
    else Lookup(leads, who, Email)
  }

  /** The lead that is stored when every lookup missed: exactly the supplied fields. */
  function NewLead(id: int, who: Identity): Lead {
    Lead(id, who.externalId, who.phone, who.email, who.name)
  }

  /** Inserting `NewLead` would break the unique constraint on `external_id`. */
  predicate ExternalIdTaken(leads: seq<Lead>, who: Identity) {
    who.externalId.Some? && FindBy(leads, ExternalId, who.externalId.value).Some?
  }

  /** The unique constraint on `leads.external_id`: no two rows share a non-null external id, empty or not. */
  ghost predicate ExternalIdsUnique(leads: seq<Lead>) {
    forall i, j :: 0 <= i < j < |leads| && leads[i].externalId.Some? ==> leads[i].externalId != leads[j].externalId
  }

  /** No two rows share a given (non-empty) external id, phone or email. */
  ghost predicate GivenKeysUnique(leads: seq<Lead>) {
    forall i, j, k :: 0 <= i < j < |leads| && Given(KeyOf(leads[i], k)) ==> KeyOf(leads[i], k) != KeyOf(leads[j], k)
  }

  // ---- Properties of the lookups ----

  /** Every lookup misses exactly when no lead carries any of the given keys. */
  lemma ResolveMissIffNoKeyMatches(leads: seq<Lead>, who: Identity)
    ensures Resolve(leads, who).None? <==>
      forall k, l :: l in leads && Given(Asked(who, k)) ==> KeyOf(l, k) != Asked(who, k)
  {
  }

  /** A hit is a lead that carries one of the given keys. */
  lemma ResolveHitCarriesAKey(leads: seq<Lead>, who: Identity)
    requires Resolve(leads, who).Some?
    ensures exists k :: Given(Asked(who, k)) && KeyOf(Resolve(leads, who).value, k) == Asked(who, k)
  {
  }

  /** When given keys are unique, a lookup hit is the only lead with that key, so "one or none" holds. */
  lemma FindByIsOnlyMatch(leads: seq<Lead>, k: LeadKey, v: string, l: Lead)
    requires GivenKeysUnique(leads)
    requires v != ""
    requires l in leads && KeyOf(l, k) == Some(v)
    ensures FindBy(leads, k, v) == Some(l)
  {
  }

  /**
   * Precedence: the lead holding the first given key (in the order external id, phone, email)
   * that has any match wins, whatever later keys would have found.
   */
  lemma FirstHitWins(leads: seq<Lead>, who: Identity, k: LeadKey, l: Lead)
    requires GivenKeysUnique(leads)
    requires l in leads && Given(Asked(who, k)) && KeyOf(l, k) == Asked(who, k)
    requires k != ExternalId ==> Lookup(leads, who, ExternalId).None?
    requires k == Email ==> Lookup(leads, who, Phone).None?
    ensures Resolve(leads, who) == Some(l)
  {
  }

  /** A stored external id that matches the given one wins over any phone or email match. */
  lemma ExternalIdWins(leads: seq<Lead>, who: Identity, l: Lead)
    requires ExternalIdsUnique(leads)
    requires l in leads && Given(who.externalId) && l.externalId == who.externalId
    ensures Resolve(leads, who) == Some(l)
  {
  }

  // ---- Properties of creation ----

  /** A lead created after every lookup missed keeps the given keys unique. */
  lemma CreatedLeadKeepsKeysUnique(leads: seq<Lead>, who: Identity, id: int)
    requires GivenKeysUnique(leads)
    requires Resolve(leads, who).None?
    ensures GivenKeysUnique(leads + [NewLead(id, who)])
  {
  }

  /** Inserting the new lead respects the unique constraint unless its external id is already taken. */
  lemma CreatedLeadKeepsExternalIdsUnique(leads: seq<Lead>, who: Identity, id: int)
    requires ExternalIdsUnique(leads)
    requires !ExternalIdTaken(leads, who)
    ensures ExternalIdsUnique(leads + [NewLead(id, who)])
  {
    var all := leads + [NewLead(id, who)];
    forall i, j | 0 <= i < j < |all| && all[i].externalId.Some?
      ensures all[i].externalId != all[j].externalId
    {
      if j == |leads| {
        assert all[i] in leads;
        assert KeyOf(all[i], ExternalId) == all[i].externalId;
      }
    }
  }

  /** The constraint can only reject the insert when the external id is the empty string, which the lookup skipped. */
  lemma TakenOnlyWhenEmpty(leads: seq<Lead>, who: Identity)
    requires Resolve(leads, who).None?
    requires ExternalIdTaken(leads, who)
    ensures who.externalId == Some("")
  {
  }

  /** Repeating a request with the same given external id finds the lead the first request created. */
  lemma CreatedLeadIsFoundAgain(leads: seq<Lead>, who: Identity, id: int, again: Identity)
    requires Resolve(leads, who).None?
    requires Given(who.externalId) && again.externalId == who.externalId
    ensures Resolve(leads + [NewLead(id, who)], again) == Some(NewLead(id, who))
  {
    var all := leads + [NewLead(id, who)];
    assert Lookup(leads, who, ExternalId).None?;
    assert NewLead(id, who) in all;
  }

  /** Two leads A (external id "x1") and B (phone "555"): a request carrying both keys gets A. */
  lemma ExternalIdOverPhoneExample()
    ensures
      var a := Lead(1, Some("x1"), None, None, None);
      var b := Lead(2, None, Some("555"), None, None);
      Resolve([a, b], Identity(Some("x1"), Some("555"), None, None)) == Some(a)
  {
  }

  /**
   * The empty external id is skipped by the lookup but stored, and the unique constraint covers
   * it: once any lead with external id "" is stored, every later request with external id ""
   * whose phone and email lookups miss finds nothing and is refused on insert.
   */
  lemma EmptyExternalIdCollides(leads: seq<Lead>, l: Lead, who: Identity)
    requires l in leads && l.externalId == Some("")
    requires who.externalId == Some("")
    requires Lookup(leads, who, Phone).None? && Lookup(leads, who, Email).None?
    ensures Resolve(leads, who).None? && ExternalIdTaken(leads, who)
  {
  }

  /** Two different senders, both with external id "": the second one is refused. */
  lemma EmptyExternalIdExample()
    ensures
      var first := NewLead(1, Identity(Some(""), Some("111"), None, None));
      var second := Identity(Some(""), Some("222"), None, None);
      Resolve([first], second).None? && ExternalIdTaken([first], second)
  {
  }

  /** The `leads` table, written only by `FindOrCreateLead`. */
  class LeadTable {
    var leads: seq<Lead>
    var nextId: int

    ghost predicate Valid()
      reads this
    {
      && ExternalIdsUnique(leads)
      && GivenKeysUnique(leads)
      && forall l :: l in leads ==> l.id < nextId
    }

    constructor ()
      ensures Valid() && leads == [] && nextId == 1
    {
      leads := [];
      nextId := 1;
    }

    /**
     * `find_or_create_lead`: returns the lead the lookups settle on and changes nothing; otherwise
     * inserts the new lead with a fresh id, unless the unique constraint rejects it.
     */
    method FindOrCreateLead(who: Identity) returns (res: Result<Lead, LeadError>)
      requires Valid()
      modifies this
      ensures Valid()
      ensures old(Resolve(leads, who)).Some? ==>
        res == Ok(old(Resolve(leads, who)).value) && leads == old(leads) && nextId == old(nextId)
      ensures old(Resolve(leads, who)).None? && old(ExternalIdTaken(leads, who)) ==>
        res == Err(DuplicateExternalId) && leads == old(leads) && nextId == old(nextId)
      ensures old(Resolve(leads, who)).None? && !old(ExternalIdTaken(leads, who)) ==>
        res == Ok(NewLead(old(nextId), who)) && leads == old(leads) + [res.value] && nextId == old(nextId) + 1
    {
      if Given(who.externalId) {
        var lead := FindBy(leads, ExternalId, who.externalId.value);
        if lead.Some? {
          return Ok(lead.value);
        }
      }
      if Given(who.phone) {
        var lead := FindBy(leads, Phone, who.phone.value);
        if lead.Some? {
          return Ok(lead.value);
        }
      }
      if Given(who.email) {
        var lead := FindBy(leads, Email, who.email.value);
        if lead.Some? {
          return Ok(lead.value);
        }
      }
      var newLead := NewLead(nextId, who);
      if who.externalId.Some? && FindBy(leads, ExternalId, who.externalId.value).Some? {
        return Err(DuplicateExternalId);
      }
      CreatedLeadKeepsKeysUnique(leads, who, nextId);
      CreatedLeadKeepsExternalIdsUnique(leads, who, nextId);
      leads := leads + [newLead];
      nextId := nextId + 1;
      return Ok(newLead);
    }
  }
}
