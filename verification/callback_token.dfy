/** The handle a caller gets back for each registration (the CallbackToken struct). */
module CallbackTokens {
  import opened Types

  datatype CallbackToken = CallbackToken(id: Guid)

  /** CallbackToken.Equals compares the ids only. */
  function Equals(a: CallbackToken, b: CallbackToken): (r: bool)
    ensures r <==> a == b
  {
    a.id == b.id
  }

  /** `new CallbackToken()`: a token with a fresh Guid. */
  method NewToken(ids: GuidSource) returns (t: CallbackToken)
    modifies ids
    ensures t.id != EmptyGuid && !old(ids.Issued(t.id))
    ensures forall h :: ids.Issued(h) <==> old(ids.Issued(h)) || h == t.id
    ensures old(ids.next) <= t.id < ids.next
  {
    var g := ids.NewGuid();
    t := CallbackToken(g);
  }
}
