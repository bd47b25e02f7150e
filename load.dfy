/** Load accounting: how many active contacts an operator currently holds. */
module LoadAccounting {
  import opened Wrappers
  import opened Models

  /** A contact counts toward an operator's load when it is assigned to it and its status is exactly "active". */
  predicate CountsToward(c: Contact, operatorId: int) {
    c.operatorId == Some(operatorId) && c.status == Active
  }

  /** `get_operator_load`: the filtered count, never negative (the `or 0` makes an empty count 0). */
  function Load(contacts: seq<Contact>, operatorId: int): (n: nat)
    ensures n <= |contacts|
  {
    if contacts == [] then 0
    else
      var last := |contacts| - 1;
      Load(contacts[..last], operatorId) + (if CountsToward(contacts[last], operatorId) then 1 else 0)
  }

  /** The positions of the contacts that count toward an operator: an independent statement of the load. */
  ghost function CountedPositions(contacts: seq<Contact>, operatorId: int): set<nat> {
    set i: nat | i < |contacts| && CountsToward(contacts[i], operatorId)
  }

  /** The load is exactly the number of contacts of that operator whose status is "active". */
  lemma {:induction false} LoadIsCount(contacts: seq<Contact>, operatorId: int)
    ensures Load(contacts, operatorId) == |CountedPositions(contacts, operatorId)|
  {
    if contacts != [] {
      var last := |contacts| - 1;
      var init := contacts[..last];
      LoadIsCount(init, operatorId);
      var before := CountedPositions(init, operatorId);
      assert last !in before;
      if CountsToward(contacts[last], operatorId) {
        assert CountedPositions(contacts, operatorId) == before + {last};
      } else {
        assert CountedPositions(contacts, operatorId) == before;
      }
    }
  }

  /** Storing one more contact raises the load of its operator by one if it is active, and no other load. */
  lemma {:induction false} LoadAfterAppend(contacts: seq<Contact>, c: Contact, operatorId: int)
    ensures Load(contacts + [c], operatorId)
         == Load(contacts, operatorId) + (if CountsToward(c, operatorId) then 1 else 0)
  {
  }
}
