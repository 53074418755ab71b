/** The objects that keep track of connected clients: a registry, and a user with a quota on its registry. */
module Clients {
  import opened Registry
  import opened Replies

  /** A connected client, known by the native handle of its control socket. */
  class ClientNode {
    const handle: int
    var serverIp: nat
    var clientIp: nat
    var codeType: CodeType
    var currentDirectory: string

    constructor (handle: int)
      ensures this.handle == handle
      ensures serverIp == 0 && clientIp == 0 && codeType == Utf8 && currentDirectory == "/"
    {
      this.handle := handle;
      serverIp := 0;
      clientIp := 0;
      codeType := Utf8;
      currentDirectory := "/";
    }
  }

  /** The earliest entry with a handle. */
  predicate IsEarliest(clients: seq<ClientNode>, handle: int, client: ClientNode) {
    exists i :: 0 <= i < |clients| && clients[i] == client && client.handle == handle &&
                forall j :: 0 <= j < i ==> clients[j].handle != handle
  }

  class ClientManager {
    var clients: seq<ClientNode>

    /** Every change to the list so far. */
    ghost var changes: seq<Change<ClientNode>>

    /** The list is what its history calls for. */
    ghost predicate Valid()
      reads this
    {
      clients == ListAfter(changes)
    }

    constructor ()
      ensures Valid() && changes == [] && clients == []
    {
      clients := [];
      changes := [];
    }

    method FindClient(handle: int) returns (client: ClientNode?)
      ensures client == null <==> forall c :: c in clients ==> c.handle != handle
      ensures client != null ==> IsEarliest(clients, handle, client)
    {
      for i := 0 to |clients|
        invariant forall j :: 0 <= j < i ==> clients[j].handle != handle
      {
        if clients[i].handle == handle {
          return clients[i];
        }
      }
      return null;
    }

    /**
     Registers a new client for an open socket, without regard to any quota. The server's address is
     overwritten by the peer's, and the client's own address is never set.
     */
    method AddSocket(handle: int, isOpen: bool, localIp: nat, remoteIp: nat) returns (client: ClientNode?)
      requires Valid()
      modifies this
      ensures Valid()
      ensures !isOpen ==> client == null && changes == old(changes) && clients == old(clients)
      ensures isOpen ==> client != null && fresh(client) && client.handle == handle
                         && client.serverIp == remoteIp && client.clientIp == 0
                         && client.codeType == Utf8 && client.currentDirectory == "/"
                         && changes == old(changes) + [Added(client)] && clients == old(clients) + [client]
    {
      if isOpen {
        client := new ClientNode(handle);
        client.serverIp := localIp;
        client.serverIp := remoteIp;
        client.codeType := Utf8;
        client.currentDirectory := "/";
        AddClient(client);
      } else {
        client := null;
      }
    }

    method AddClient(client: ClientNode)
      requires Valid()
      modifies this
      ensures Valid() && changes == old(changes) + [Added(client)]
      ensures clients == old(clients) + [client]
    {
      clients := clients + [client];
      changes := changes + [Added(client)];
    }

    method DeleteClient(client: ClientNode?)
      requires Valid()
      modifies this
      ensures Valid()
      ensures client == null ==> changes == old(changes) && clients == old(clients)
      ensures client != null ==> changes == old(changes) + [Removed(client)]
                                 && clients == RemoveFirst(old(clients), client)
    {
      if client == null {
        return;
      }
      var pos := 0;
      while pos != |clients|
        invariant 0 <= pos <= |clients|
        invariant client !in clients[..pos]
        invariant clients == old(clients) && changes == old(changes)
      {
        if clients[pos] == client {
          assert pos == IndexOf(clients, client);
          clients := clients[..pos] + clients[pos + 1..];
          break;
        }
        pos := pos + 1;
      }
      changes := changes + [Removed(client)];
    }

    method DeleteAllClient()
      requires Valid()
      modifies this
      ensures Valid() && changes == old(changes) + [Cleared]
      ensures clients == []
    {
      clients := [];
      changes := changes + [Cleared];
    }

    function GetClientNum(): int
      reads this
    {
      |clients|
    }
  }

  const MAX_CLIENT_NUM_PER_USER := 10

  class UserNode {
    const clientManager: ClientManager
    var maxClientNum: int

    constructor ()
      ensures maxClientNum == 10
      ensures fresh(clientManager) && clientManager.Valid() && clientManager.clients == []
    {
      clientManager := new ClientManager();
      maxClientNum := MAX_CLIENT_NUM_PER_USER;
    }

    method SetMaxClientNum(max: int)
      modifies this
      ensures maxClientNum == max
    {
      maxClientNum := max;
    }

    /** Run alone, it is the indivisible quota-checked add, and it says whether the client was let in. */
    method AddClient(client: ClientNode) returns (added: bool)
      requires clientManager.Valid()
      modifies clientManager
      ensures clientManager.Valid()
      ensures added <==> maxClientNum == -1 || |old(clientManager.clients)| < maxClientNum
      ensures clientManager.clients == old(clientManager.clients) + if added then [client] else []
      ensures clientManager.clients == Admit(maxClientNum, old(clientManager.clients), client)
      ensures clientManager.changes == old(clientManager.changes) + if added then [Added(client)] else []
    {
      if maxClientNum == NO_LIMIT || clientManager.GetClientNum() < maxClientNum {
        clientManager.AddClient(client);
        return true;
      }
      return false;
    }
  }
}
