/** The kind of an envelope (the MessageType enum). */
module MessageTypes {
  import opened Types

  /** The four kinds, in declaration order: their underlying values are 0 to 3. */
  datatype MessageType = Unspecified | Send | Invoke | Response

  /** The enum's underlying value, which is what goes on the wire. */
  function Ordinal(t: MessageType): (n: nat)
    ensures n < 4
    ensures n == 0 <==> t == Unspecified
  {
    match t
    case Unspecified => 0
    case Send => 1
    case Invoke => 2
    case Response => 3
  }

  /** The named kind with underlying value n, if there is one. */
  function FromOrdinal(n: int): (t: Option<MessageType>)
    ensures t.Some? <==> 0 <= n < 4
    ensures t.Some? ==> Ordinal(t.value) == n
  {
    if n == 0 then Some(Unspecified)
    else if n == 1 then Some(Send)
    else if n == 2 then Some(Invoke)
    else if n == 3 then Some(Response)
    else None
  }

  /** Ordinal is a bijection between the four kinds and 0..3. */
  lemma OrdinalRoundTrip(t: MessageType)
    ensures FromOrdinal(Ordinal(t)) == Some(t)
  {
  }

  /** default(MessageType), the value of a field nothing assigned, is Unspecified. */
  lemma DefaultIsUnspecified()
    ensures FromOrdinal(0) == Some(Unspecified)
  {
  }
}
