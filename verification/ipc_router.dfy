/**
 * The server registry (IpcRouter): a table from pipe name to server connection that every
 * router shares, filled by CreateServer and emptied by TryRemoveServer and by the hook that
 * runs when a server's read loop ends.
 */
module Router {
  import opened Types
  import opened Envelopes
  import opened Streams
  import opened Callbacks
  import opened Connections

  const PipeNameInUse: Exception := Argument("The pipe name is already in use.")

  /** string.IsNullOrWhiteSpace: null, empty, or white space only. */
  function NullOrWhiteSpace(name: Option<string>): (r: bool)
    ensures name.None? || name == Some("") ==> r
    ensures name.Some? && (exists i | 0 <= i < |name.value| :: !IsWhiteSpace(name.value[i])) ==> !r
  {
    name.None? || forall i | 0 <= i < |name.value| :: IsWhiteSpace(name.value[i])
  }

  /** The nameless CreateServer's names, Guid strings, are never blank. */
  lemma GuidNamesAreNotBlank(g: Guid)
    ensures !NullOrWhiteSpace(Some(GuidToString(g)))
  {
    var s := GuidToString(g);
    assert !IsWhiteSpace(s[0]);
  }

  /** The static _pipeStreams dictionary: one table, whichever router uses it. */
  class ServerTable {
    var servers: map<string, Connection>

    constructor ()
      ensures servers == map[]
    {
      servers := map[];
    }
  }

  class IpcRouter {
    const table: ServerTable
    /** Where Guid.NewGuid takes ids from, for nameless servers and for their envelopes. */
    const guids: GuidSource
    /** What the connection factory equips each server with. */
    const codec: Codec
    const behaviour: Behaviour

    constructor (table: ServerTable, guids: GuidSource, codec: Codec, behaviour: Behaviour)
      ensures this.table == table && this.guids == guids && this.codec == codec && this.behaviour == behaviour
    {
      this.table := table;
      this.guids := guids;
      this.codec := codec;
      this.behaviour := behaviour;
    }

    /**
     * CreateServerInternal (lines 71-90): a blank name is refused before anything is made;
     * otherwise the factory makes a server whose pipe is not yet connected, the router
     * subscribes to its ReadingEnded, and the server is registered unless the name is taken.
     */
    method CreateServerInternal(pipeName: Option<string>) returns (r: Returns<Connection>)
      modifies table
      ensures NullOrWhiteSpace(pipeName) ==>
        (r == Throws(ArgumentNull("pipeName")) && table.servers == old(table.servers))
      ensures !NullOrWhiteSpace(pipeName) && pipeName.value in old(table.servers) ==>
        (r == Throws(PipeNameInUse) && table.servers == old(table.servers))
      ensures !NullOrWhiteSpace(pipeName) && pipeName.value !in old(table.servers) ==>
        (r.Returned? && fresh(r.value)
         && table.servers == old(table.servers)[pipeName.value := r.value]
         && r.value.pipeName == pipeName.value && r.value.Valid()
         && r.value.readingEndedHandlers == 1 && r.value.readTask.None? && r.value.pending == map[]
         && r.value.stream != null && !r.value.IsConnected())
    {
      if NullOrWhiteSpace(pipeName) {
        return Throws(ArgumentNull("pipeName"));
      }
      var name := pipeName.value;
      var pipe := new PipeStream([], false, []);
      var serverConnection := new Connection(name, codec, behaviour, guids, pipe);
      serverConnection.readingEndedHandlers := serverConnection.readingEndedHandlers + 1;
      if name in table.servers {
        return Throws(PipeNameInUse);
      }
      table.servers := table.servers[name := serverConnection];
      r := Returned(serverConnection);
    }

    /** CreateServer(pipeName) (lines 56-59). */
    method CreateServer(pipeName: Option<string>) returns (r: Returns<Connection>)
      modifies table
      ensures NullOrWhiteSpace(pipeName) ==>
        (r == Throws(ArgumentNull("pipeName")) && table.servers == old(table.servers))
      ensures !NullOrWhiteSpace(pipeName) && pipeName.value in old(table.servers) ==>
        (r == Throws(PipeNameInUse) && table.servers == old(table.servers))
      ensures !NullOrWhiteSpace(pipeName) && pipeName.value !in old(table.servers) ==>
        (r.Returned? && fresh(r.value) && table.servers == old(table.servers)[pipeName.value := r.value]
         && r.value.pipeName == pipeName.value && r.value.readingEndedHandlers == 1)
    {
      r := CreateServerInternal(pipeName);
    }

    /**
     * CreateServer() (lines 50-54): the name is a fresh Guid's string, so it is never refused
     * as blank; it is refused only if someone registered that very string by hand.
     */
    method CreateNamelessServer() returns (name: string, r: Returns<Connection>)
      modifies table, guids
      ensures exists g :: g != EmptyGuid && !old(guids.Issued(g)) && name == GuidToString(g)
      ensures name in old(table.servers) ==>
        (r == Throws(PipeNameInUse) && table.servers == old(table.servers))
      ensures name !in old(table.servers) ==>
        (r.Returned? && fresh(r.value) && table.servers == old(table.servers)[name := r.value]
         && r.value.pipeName == name)
    {
      var g := guids.NewGuid();
      name := GuidToString(g);
      GuidNamesAreNotBlank(g);
      r := CreateServerInternal(Some(name));
    }

    /** TryGetServer (lines 61-64): a lookup that changes nothing. */
    method TryGetServer(pipeName: string) returns (found: bool, server: Connection?)
      ensures found <==> pipeName in table.servers
      ensures found ==> server == table.servers[pipeName]
      ensures !found ==> server == null
    {
      if pipeName in table.servers {
        return true, table.servers[pipeName];
      }
      return false, null;
    }

    /** A server CreateServer registered is what TryGetServer finds under its name. */
    method CreateThenGet(pipeName: string) returns (created: Returns<Connection>, found: bool, server: Connection?)
      requires !NullOrWhiteSpace(Some(pipeName)) && pipeName !in table.servers
      modifies table
      ensures created.Returned? && found && server == created.value
      ensures table.servers == old(table.servers)[pipeName := created.value]
    {
      created := CreateServer(Some(pipeName));
      found, server := TryGetServer(pipeName);
    }

    /** TryRemoveServer (lines 66-69): the entry goes, and is handed back, iff it was there. */
    method TryRemoveServer(pipeName: string) returns (found: bool, server: Connection?)
      modifies table
      ensures found <==> pipeName in old(table.servers)
      ensures found ==> server == old(table.servers)[pipeName]
      ensures !found ==> server == null
      ensures table.servers == old(table.servers) - {pipeName}
    {
      found, server := TryGetServer(pipeName);
      table.servers := table.servers - {pipeName};
    }

    /**
     * ServerConnection_ReadingEnded (lines 92-102): the entry under the ending server's pipe
     * name goes, whichever server it holds, and the router unsubscribes from that server.
     */
    method ServerConnectionReadingEnded(args: Connection)
      modifies table, table.servers.Values
      ensures table.servers == old(table.servers) - {args.pipeName}
      ensures args.pipeName in old(table.servers) ==>
        var removed := old(table.servers)[args.pipeName];
        removed.readingEndedHandlers
        == if old(removed.readingEndedHandlers) > 0 then old(removed.readingEndedHandlers) - 1 else 0
      ensures forall c | c in old(table.servers.Values)
                         && (args.pipeName !in old(table.servers) || c != old(table.servers)[args.pipeName]) ::
        c.readingEndedHandlers == old(c.readingEndedHandlers)
      ensures forall c | c in old(table.servers.Values) ::
        c.readTask == old(c.readTask) && c.readingEndedCount == old(c.readingEndedCount)
    {
      var found, server := TryRemoveServer(args.pipeName);
      if found {
        if server.readingEndedHandlers > 0 {
          server.readingEndedHandlers := server.readingEndedHandlers - 1;
        }
      }
    }

    /**
     * A server's read loop running to its end, and the ReadingEnded it raises reaching the
     * router's handler (subscribed at line 82): a server that stops reading leaves the table.
     */
    method RunServer(server: Connection) returns (end: ReadEnd)
      requires server.Valid() && server.readTask == Some(Running)
      modifies server, server.stream, server.ids, server.pending.Values, table, table.servers.Values
      ensures end.Ended? && old(server.readingEndedHandlers) > 0 ==>
        table.servers == old(table.servers) - {server.pipeName}
      ensures end.NeverEnds? || old(server.readingEndedHandlers) == 0 ==> table.servers == old(table.servers)
      ensures end.Ended? ==>
        (server.readTask == Some(RanToCompletion) && server.readingEndedCount == old(server.readingEndedCount) + 1)
    {
      ghost var passes;
      end, passes := server.ReadFromStream();
      if end.Ended? && server.readingEndedHandlers > 0 {
        ServerConnectionReadingEnded(server);
      }
    }
  }
}
