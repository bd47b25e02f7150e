/**
 * Creating a contact (`create_contact`): check the source exists, resolve the lead, select an
 * operator for the source, and store an "active" contact assigned to that operator or to nobody.
 */
module Contacts {
  import opened Wrappers
  import opened Models
  import opened LoadAccounting
  import opened Selection
  import opened LeadResolution

  /** The tables a request sees: sources, weight rows, contacts, and the lead table. */
  class Database {
    const leadTable: LeadTable
    var sources: set<int>
    var weights: seq<WeightRow>
    var contacts: seq<Contact>
    var nextContactId: int

    ghost predicate Valid()
      reads this, leadTable
    {
      leadTable.Valid()
    }

    constructor (leadTable: LeadTable, sources: set<int>, weights: seq<WeightRow>)
      requires leadTable.Valid()
      ensures Valid() && this.leadTable == leadTable
      ensures this.sources == sources && this.weights == weights && contacts == []
    {
      this.leadTable := leadTable;
      this.sources := sources;
      this.weights := weights;
      contacts := [];
      nextContactId := 1;
    }
  }

  datatype ContactError = SourceNotFound | LeadNotStored(cause: LeadError)

  /** `operator.id if operator else None`. */
  function OperatorIdOf(o: Option<Operator>): Option<int> {
    match o
    case Some(op) => Some(op.id)
    case None => None
  }

  /**
   * `create_contact`. The operator is chosen from the loads before the new contact is stored;
   * afterwards that operator's load is one higher, every other load is unchanged, and the
   * chosen operator is still within its capacity.
   */
  method CreateContact(db: Database, sourceId: int, who: Identity, message: Option<string>, r: real, choice: nat)
    returns (res: Result<Contact, ContactError>)
    requires db.Valid()
    requires ChoiceFits(choice, Survivors(db.weights, db.contacts, sourceId))
    modifies db, db.leadTable
    ensures db.Valid()
    ensures db.sources == old(db.sources) && db.weights == old(db.weights)
    ensures res == Err(SourceNotFound) <==> sourceId !in db.sources
    ensures sourceId in db.sources ==>
      (res.Err? <==> old(Resolve(db.leadTable.leads, who)).None? && old(ExternalIdTaken(db.leadTable.leads, who)))
    ensures res.Err? ==> res.error == SourceNotFound || res.error == LeadNotStored(DuplicateExternalId)
    ensures sourceId in db.sources && old(Resolve(db.leadTable.leads, who)).None? && !old(ExternalIdTaken(db.leadTable.leads, who)) ==>
      && db.leadTable.leads == old(db.leadTable.leads) + [NewLead(old(db.leadTable.nextId), who)]
      && db.leadTable.nextId == old(db.leadTable.nextId) + 1
    ensures sourceId !in db.sources || old(Resolve(db.leadTable.leads, who)).Some? || old(ExternalIdTaken(db.leadTable.leads, who)) ==>
      db.leadTable.leads == old(db.leadTable.leads) && db.leadTable.nextId == old(db.leadTable.nextId)
    ensures res.Err? ==> db.contacts == old(db.contacts) && db.nextContactId == old(db.nextContactId)
    ensures res.Ok? ==>
      && db.contacts == old(db.contacts) + [res.value]
      && res.value.id == old(db.nextContactId)
      && db.nextContactId == old(db.nextContactId) + 1
      && res.value.sourceId == sourceId
      && res.value.status == Active
      && res.value.message == message
      && res.value.operatorId == OperatorIdOf(Select(old(db.weights), old(db.contacts), sourceId, r, choice))
      && res.value.leadId == (match old(Resolve(db.leadTable.leads, who))
                              case Some(l) => l.id
                              case None => old(db.leadTable.nextId))
    ensures res.Ok? ==>
      forall o :: Load(db.contacts, o) == Load(old(db.contacts), o) + (if res.value.operatorId == Some(o) then 1 else 0)
    ensures res.Ok? ==> match Select(old(db.weights), old(db.contacts), sourceId, r, choice)
      case Some(op) => Load(db.contacts, op.id) <= op.maxLoad
      case None => true
  {
    if sourceId !in db.sources {
      return Err(SourceNotFound);
    }

    var lead := db.leadTable.FindOrCreateLead(who);
    if lead.Err? {
      return Err(LeadNotStored(lead.error));
    }

    var operator := SelectOperator(db.weights, db.contacts, sourceId, r, choice);

    var newContact := Contact(db.nextContactId, lead.value.id, sourceId, OperatorIdOf(operator), Active, message);
    forall o
      ensures Load(db.contacts + [newContact], o)
           == Load(db.contacts, o) + (if newContact.operatorId == Some(o) then 1 else 0)
    {
      LoadAfterAppend(db.contacts, newContact, o);
    }
    db.contacts := db.contacts + [newContact];
    db.nextContactId := db.nextContactId + 1;
    return Ok(newContact);
  }
}
