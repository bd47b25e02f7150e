/**
 * The rows of the tables the distribution core reads and writes, as plain values.
 * Only the columns the core looks at are kept; timestamps and display names are dropped.
 */
module Models {
  import opened Wrappers

  /** An operator with its `is_active` flag and its capacity `max_load`. */
  datatype Operator = Operator(id: int, isActive: bool, maxLoad: int)

  /** One row of `source_operator_weights`, already joined to its operator. */
  datatype WeightRow = WeightRow(sourceId: int, operator: Operator, weight: real)

  /** A lead; each of the three identity keys is nullable. */
  datatype Lead = Lead(
    id: int,
    externalId: Option<string>,
    phone: Option<string>,
    email: Option<string>,
    name: Option<string>)

  /** One inbound contact; `operatorId` is None when nobody was assigned. */
  datatype Contact = Contact(
    id: int,
    leadId: int,
    sourceId: int,
    operatorId: Option<int>,
    status: string,
    message: Option<string>)

  /** The status a new contact receives, and the only status that counts as load. */
  const Active: string := "active"
}
